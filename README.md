# holidayservice — a Dafny model of the holiday aggregation core

The service answers three questions from one upstream holiday provider:

- the last three holidays a country has observed;
- how many holidays of a year fall on a weekday, per country, ranked;
- which holidays two countries share in a year.

This project models that aggregation layer (`HolidayService`) and the `Holiday` record whose identity is its date alone. It proves what each operation returns, when it fails, and in what order it returns things.

Layout, one module per file:

- `sequences.dfy` (`Sequences`): `Filter` and `Take`, the stream steps `filter` and `limit`, with their lemmas.
- `stable_sort.dfy` (`StableSort`): `SortBy`, a stable insertion sort ascending by an integer key. It stands for `Stream.sorted(comparator)` on an ordered stream. A `reversed()` comparator is the same sort on the negated key.
- `calendar.dfy` (`Calendar`): the parts of `java.time.LocalDate` the service uses, and one helper of its own.
  - Valid dates and their order (`isBefore`/`isAfter`).
  - `toEpochDay`, with Java's truncating division written out for negative years.
  - `getDayOfWeek`, as `floorMod(epochDay + 3, 7)`.
  - `NextDay`, the day after a date. The service never calls `plusDays`; `NextDay` exists only to prove that the weekday advances by one per day.
- `holiday.dfy` (`HolidayModel`): `Holiday`, `CountryHolidayCount`, `Holiday.equals` and `Holiday.hashCode`. `LocalDate.hashCode` is computed in 32-bit arithmetic.
- `holiday_service.dfy` (`HolidayService`): the three operations, `countNonWeekendHolidays` and `isWeekend`.
  - The repository is a parameter, `Repository = (int, string) -> Fetched`. Each answer is either the fetched list or `Unavailable`, which stands for the REST client failing.
  - A failure becomes `Failure(FetchFailed)`. In the ranking it becomes `Failure(CountFailed(FetchFailed))`, the wrapping the `catch` block adds.
  - The clock is two parameters, `currentYear` and `today`. The source reads them with two separate calls.
- `scenarios.dfy` (`Scenarios`): every test of `HolidayServiceTest.java`, each replayed against the model with that test's own data, the weekdays of the test dates, and the input that exhibits the finding below.

`getLastThreeHolidays` changes a local list step by step, so it is a `method`. It also returns the list of fetches it made, so the lazy previous-year fetch can be stated. The other operations are streams over values, so they are functions. `new HashSet<>(list)` is modelled as the list's holidays in insertion order, keeping the first holiday of each date, since `HashSet.add` does not replace an equal element. Java iterates a `HashSet` in hash order instead. That order cannot be seen in the result, because the result is sorted by dates that are all different (`StableSort.SortByStrict`).

Three points where the code decides what its doc comments and names leave open or state otherwise:

- The doc comment of `getLastThreeHolidays` promises "a list of the last three holidays" (HolidayService.java:35), and so does the method's name. The code cuts to three only when the previous year is consulted. If the current year already has three or more holidays up to today, all of them are returned. The model follows the code, and this is recorded under "## Findings" below.
- The ranking maps an ordered list with `parallelStream` and then sorts it. The ordered stream and the stable sort keep countries with equal counts in input order, and `TiesKeepInputOrder` proves it.
- In `getCommonHolidays`, the holiday kept for a shared date is the first holiday of that date in the first country's list.

## Model

| member | source | states |
|---|---|---|
| Sequences.Filter | src/main/java/com/myorg/holidayservice/service/HolidayService.java:43-44 | `filter` keeps only passing elements, each taken from the input, and never lengthens the list |
| Sequences.FilterMultiset | src/main/java/com/myorg/holidayservice/service/HolidayService.java:43-44 | every copy of a passing element is kept and no copy of a failing one |
| Sequences.Take | src/main/java/com/myorg/holidayservice/service/HolidayService.java:58-60 | `limit(n)` is a prefix of the list with exactly min(n, length) elements |
| Sequences.FilterLengthIsPositionCount | src/main/java/com/myorg/holidayservice/service/HolidayService.java:120-122 | `filter(...).count()` equals the number of list positions whose element passes |
| StableSort.SortBy | src/main/java/com/myorg/holidayservice/service/HolidayService.java:45 | the sorted list is in key order and is a permutation of the input |
| StableSort.InsertSorted | src/main/java/com/myorg/holidayservice/service/HolidayService.java:45 | inserting an element into a sorted list keeps it sorted |
| StableSort.SortByStable | src/main/java/com/myorg/holidayservice/service/HolidayService.java:78 | the sort is stable: elements with equal keys keep their input order |
| StableSort.SortByStrict | src/main/java/com/myorg/holidayservice/service/HolidayService.java:102 | when no two elements share a key, the sorted list is strictly increasing |
| Calendar.LengthOfMonth | src/main/java/com/myorg/holidayservice/model/Holiday.java:16 | a month has 28 to 31 days, and 29 exactly for February of a leap year |
| Calendar.IsBefore | src/main/java/com/myorg/holidayservice/service/HolidayService.java:44 | `isBefore`, and through it `isAfter`: strict (year, month, day) order; `OrdinalOrder` proves it agrees with the integer key and that only equal dates tie |
| Calendar.EpochDay | src/main/java/com/myorg/holidayservice/service/HolidayService.java:132 | `toEpochDay`, the count behind `getDayOfWeek`; `NextDayEpochDay` proves it grows by exactly one per calendar day, across month and year ends |
| Calendar.DayOfWeekOf | src/main/java/com/myorg/holidayservice/service/HolidayService.java:132 | `getDayOfWeek`, counted from 1970-01-01, a Thursday; `NextDayDayOfWeek` proves consecutive dates get consecutive weekdays |
| Calendar.EpochAnchor | src/main/java/com/myorg/holidayservice/service/HolidayService.java:132 | the day count is 0 on 1970-01-01, and that day is a Thursday |
| Calendar.OrdinalOrder | src/main/java/com/myorg/holidayservice/service/HolidayService.java:45 | the integer sort key of a date orders dates as `LocalDate.compareTo` does, and only equal dates share one |
| Calendar.LeapDaysStep | src/main/java/com/myorg/holidayservice/service/HolidayService.java:132 | the leap-day count used by `toEpochDay` grows by one after each leap year and is unchanged after other years |
| Calendar.NextDayEpochDay | src/main/java/com/myorg/holidayservice/service/HolidayService.java:132 | `toEpochDay` of the next date is one more, across month and year ends |
| Calendar.NextDayDayOfWeek | src/main/java/com/myorg/holidayservice/service/HolidayService.java:132 | consecutive dates fall on consecutive days of the week |
| HolidayModel.Equals | src/main/java/com/myorg/holidayservice/model/Holiday.java:19-24 | `Holiday.equals`; `EqualsIffSameDate`, `EqualsIgnoresLocalName`, `NeverEqualsNullOrOtherClass` and `EqualsIsEquivalence` below state what it promises |
| HolidayModel.EqualsIffSameDate | src/main/java/com/myorg/holidayservice/model/Holiday.java:19-24 | two holidays are equal if and only if their dates are equal |
| HolidayModel.EqualsIgnoresLocalName | src/main/java/com/myorg/holidayservice/model/Holiday.java:19-24 | holidays that differ only in local name are equal |
| HolidayModel.NeverEqualsNullOrOtherClass | src/main/java/com/myorg/holidayservice/model/Holiday.java:21 | a holiday never equals `null` or an object of another class |
| HolidayModel.EqualsIsEquivalence | src/main/java/com/myorg/holidayservice/model/Holiday.java:19-24 | `equals` is reflexive, symmetric and transitive |
| HolidayModel.HashCodeConsistent | src/main/java/com/myorg/holidayservice/model/Holiday.java:26-29 | equal holidays have equal hash codes |
| HolidayModel.HashCode | src/main/java/com/myorg/holidayservice/model/Holiday.java:26-29 | `Holiday.hashCode`, the date's hash in 32-bit arithmetic; `HashCodeConsistent` proves equal holidays hash alike |
| HolidayService.PastNewestFirst | src/main/java/com/myorg/holidayservice/service/HolidayService.java:43-46 | one year's filter-and-sort, used for both years (also lines 50-53); `PastNewestFirstSpec` states what it keeps and its order |
| HolidayService.PastNewestFirstSpec | src/main/java/com/myorg/holidayservice/service/HolidayService.java:43-46 | one year's pipeline keeps exactly the holidays not after today, with every copy, newest first |
| HolidayService.GetLastThreeHolidays | src/main/java/com/myorg/holidayservice/service/HolidayService.java:38-64 | the current year is fetched first. The previous year is fetched only when fewer than three past holidays remain. A failed fetch fails the call. Nothing after today is returned. With enough current holidays all of them are returned. Otherwise the result is the current then the previous year's holidays cut to three, and empty only when both years have none. It is newest first whenever each fetch holds its own year's dates |
| HolidayService.FallbackList | src/main/java/com/myorg/holidayservice/service/HolidayService.java:55-60 | the fallback list starts with all the current year's holidays, holds only holidays of the two years, and is empty only if both years are |
| HolidayService.YearsAppendNewestFirst | src/main/java/com/myorg/holidayservice/service/HolidayService.java:49-61 | appending the previous year after the current year and cutting to three keeps newest-first order |
| HolidayService.GetLastThreeHolidaysCapped | src/main/java/com/myorg/holidayservice/service/HolidayService.java:38-64 | the corrected call makes the same fetches and fails the same way. It returns at most three holidays, the first three of the uncapped answer, newest first |
| HolidayService.TakeKeepsNewestFirst | src/main/java/com/myorg/holidayservice/service/HolidayService.java:58-60 | a prefix of a newest-first list is newest first and holds only its elements |
| HolidayService.IsWeekend | src/main/java/com/myorg/holidayservice/service/HolidayService.java:131-133 | `isWeekend`: Saturday or Sunday; `WeekendByEpochDay` characterises it independently by the epoch day modulo 7 |
| HolidayService.WeekendByEpochDay | src/main/java/com/myorg/holidayservice/service/HolidayService.java:131-133 | a date is a weekend day exactly when its epoch day is 2 or 3 modulo 7 (1970-01-01 was a Thursday) |
| HolidayService.CountNonWeekendHolidays | src/main/java/com/myorg/holidayservice/service/HolidayService.java:113-123 | fails exactly when the fetch fails. Otherwise the count is the number of fetched holidays not on Saturday or Sunday, between 0 and the list length, and 0 for an empty list |
| HolidayService.CountEach | src/main/java/com/myorg/holidayservice/service/HolidayService.java:76-77 | one count per code, in input order, each equal to that code's `countNonWeekendHolidays`. It fails exactly when some code's fetch fails |
| HolidayService.GetNonWeekendHolidaysCount | src/main/java/com/myorg/holidayservice/service/HolidayService.java:73-84 | fails, wrapped once more, exactly when some code's fetch fails. Otherwise it has one entry per code, is a permutation of the per-code counts, is ordered by count descending, and every entry's count is that country's non-weekend count |
| HolidayService.RankedCounts | src/main/java/com/myorg/holidayservice/service/HolidayService.java:76-79 | the sorted counts have the input's length, descend by count, and each is its country's non-negative count |
| HolidayService.TiesKeepInputOrder | src/main/java/com/myorg/holidayservice/service/HolidayService.java:76-79 | countries with equal counts appear in the order their codes were given |
| HolidayService.RankingStable | src/main/java/com/myorg/holidayservice/service/HolidayService.java:78 | sorting the counts descending keeps each group of equal counts in input order |
| HolidayService.Contains | src/main/java/com/myorg/holidayservice/service/HolidayService.java:101 | `holidays2.contains(h)` holds exactly when some element has `h`'s date |
| HolidayService.ToHashSet | src/main/java/com/myorg/holidayservice/service/HolidayService.java:96-97 | the set holds the list's dates, one holiday per date, and the holiday kept for each date is its first in the list |
| HolidayService.Add | src/main/java/com/myorg/holidayservice/service/HolidayService.java:96-97 | `HashSet.add` keeps what was there, adds at most one holiday, adds the new date to the set's dates, and leaves the set unchanged in size exactly when the date was already present; a holiday with a new date is appended itself, `localName` included |
| HolidayService.AddStep | src/main/java/com/myorg/holidayservice/service/HolidayService.java:96-97 | one `add` keeps the set's dates, distinctness and first-one-wins choice in step with the list |
| HolidayService.GetCommonHolidays | src/main/java/com/myorg/holidayservice/service/HolidayService.java:95-104 | fails exactly when either fetch fails. Otherwise the result is strictly ascending by date, its dates are exactly the dates both countries have, each holiday is the first of its date in the first country's list, and it is empty only when no date is shared |
| HolidayService.CommonHolidaysSorted | src/main/java/com/myorg/holidayservice/service/HolidayService.java:100-103 | filtering the first set by the second and sorting by date gives a strictly ascending list of exactly the shared dates |
| HolidayService.AscendingDatesDetermined | src/main/java/com/myorg/holidayservice/service/HolidayService.java:102 | two strictly ascending lists with the same dates list those dates in the same positions |
| HolidayService.CommonHolidaysSymmetric | src/main/java/com/myorg/holidayservice/service/HolidayService.java:95-104 | swapping the two countries gives the same dates in the same order |
| Scenarios.NewYearIsWednesday | src/test/java/com/myorg/holidayservice/service/HolidayServiceTest.java:38 | 2025-01-01 is a Wednesday |
| Scenarios.DayAfterNewYearIsThursday | src/test/java/com/myorg/holidayservice/service/HolidayServiceTest.java:41 | 2025-01-02 is a Thursday, derived from the day before |
| Scenarios.NewYearsEveIsTuesday | src/test/java/com/myorg/holidayservice/service/HolidayServiceTest.java:39 | 2024-12-31 is a Tuesday, derived from the day after |
| Scenarios.ChristmasIsWednesday | src/test/java/com/myorg/holidayservice/service/HolidayServiceTest.java:40 | 2024-12-25 is a Wednesday |
| Scenarios.NextChristmasIsThursday | src/test/java/com/myorg/holidayservice/integration/HolidayIntegrationTest.java:48 | 2025-12-25 is a Thursday, so the controller test counts it as a weekday holiday |
| Scenarios.ThreeCurrentScenario | src/test/java/com/myorg/holidayservice/service/HolidayServiceTest.java:44-57 | three 2025 holidays up to today come back newest first, with a single fetch |
| Scenarios.PreviousYearOnlyScenario | src/test/java/com/myorg/holidayservice/service/HolidayServiceTest.java:59-72 | an empty 2025 makes both years fetched, and 2024's two holidays come back newest first |
| Scenarios.BothYearsEmptyScenario | src/test/java/com/myorg/holidayservice/service/HolidayServiceTest.java:74-85 | two empty years give an empty answer after both fetches |
| Scenarios.NonWeekendCountScenario | src/test/java/com/myorg/holidayservice/service/HolidayServiceTest.java:104-119 | US with one weekday holiday and IN with two rank as [IN 2, US 1] |
| Scenarios.ZeroCountScenario | src/test/java/com/myorg/holidayservice/service/HolidayServiceTest.java:121-133 | one country with no holidays is ranked alone with a count of 0 |
| Scenarios.CommonHolidaysScenario | src/test/java/com/myorg/holidayservice/service/HolidayServiceTest.java:136-148 | with US holding 2025-01-01 and 2024-12-31 and IN holding 2025-01-01 and 2024-12-25, the common holidays are exactly US's 2025-01-01 holiday |
| Scenarios.OnlyShared | src/test/java/com/myorg/holidayservice/service/HolidayServiceTest.java:146-147 | an ascending list of first-of-date holidays whose only date is that of the first list's head is exactly that head |
| Scenarios.NoCommonHolidaysScenario | src/test/java/com/myorg/holidayservice/service/HolidayServiceTest.java:150-161 | US with only 2025-01-01 and IN with only 2025-01-02 share nothing |
| Scenarios.CountScenario | src/test/java/com/myorg/holidayservice/service/HolidayServiceTest.java:164-174 | 2025-01-01, 2024-12-31 and 2024-12-25 are all weekdays, so the count is 3 |
| Scenarios.EmptyCountScenario | src/test/java/com/myorg/holidayservice/service/HolidayServiceTest.java:176-186 | an empty year counts 0 |
| Scenarios.FallbackScenario | src/test/java/com/myorg/holidayservice/service/HolidayServiceTest.java:87-101 | one 2025 holiday is filled up with the two latest of 2024, and both years are fetched |
| Scenarios.UncappedScenario | src/main/java/com/myorg/holidayservice/service/HolidayService.java:49-63 | as written, four holidays of the current year up to today come back as four, with a single fetch |
| Scenarios.CappedScenario | src/main/java/com/myorg/holidayservice/service/HolidayService.java:57-60 | the corrected call returns three for the same input |

## Left out

- `HolidayRepository` is not modelled beyond what the service sees. It is a parameter that answers each (year, country code) with a list or a failure.
  - Its HTTP call, URL building and status handling are left out.
  - A non-2xx status or an empty body gives an empty list (HolidayRepository.java:65-71). That is just one more list the parameter may return.
  - Holidays without a date are dropped at HolidayRepository.java:67, so every modelled `Holiday` has a date.
- `HolidayController`, `GlobalExceptionHandler`, `ErrorResponse` and the mapping of an empty result to a 404 are not part of this model. They route, validate and format, and make no decision of the core.
- The exception messages and the logging calls are left out. A failure carries only its kind: `FetchFailed`, or `CountFailed` wrapping its cause.
- `parallelStream` runs concurrently in the source. The model evaluates sequentially. The result is the same because the stream is ordered and the per-code work is independent.
- `Year.now()` and `LocalDate.now()` become the parameters `currentYear` and `today`. The model does not require `today` to fall in `currentYear`, because the source reads the two separately.
- `HashSet` is modelled as a list in insertion order, not in hash order (see above). Its buckets, resizing and `hashCode`-driven lookup are not modelled. `Contains` states lookup by `equals`, and `HashCodeConsistent` states why the two agree.
- `LocalDate` years are unbounded integers. Java's range of ±999,999,999 is not enforced. `DateHashCode` reduces the year modulo 2^32, as Java's int does.
- CountNonWeekendHolidays: the `(int)` cast of the `long` count is not modelled. A list's length cannot exceed `Integer.MAX_VALUE`, so the cast never changes the value.
- `toString`, Lombok's generated getters and setters, and JSON mapping are left out.
- `NoHolidaysFoundException` is imported by the service but never thrown there, so nothing models it.

## Findings

| source | as written | input that shows it | evidently intended | confidence | as-written member | corrected member |
|---|---|---|---|---|---|---|
| src/main/java/com/myorg/holidayservice/service/HolidayService.java:49-63 | the cut to three (`limit(3)`) sits inside the `size() < 3` branch, so a current year with three or more holidays up to today is returned whole | four 2025 holidays on or before `today` (for instance 01-01, 01-02, 01-20 and 02-17 with today 2025-03-01) give four holidays | at most three holidays, the newest ones, as the method's name and its doc comment ("a list of the last three holidays") say | high; not executed | Scenarios.UncappedScenario | HolidayService.GetLastThreeHolidaysCapped |
