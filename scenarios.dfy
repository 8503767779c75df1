/**
 * Every test of the service's unit tests, replayed against the model
 * with that test's own data: four holidays around the 2024/2025 new year
 * and repositories that answer for "US" and "IN". Also the weekdays of
 * the test dates, and the input that shows the uncapped answer.
 */
module Scenarios {
  import opened Calendar
  import opened HolidayModel
  import opened Sequences
  import opened StableSort
  import opened HolidayService

  const NewYear: LocalDate := Date(2025, 1, 1)
  const NewYearsEve: LocalDate := Date(2024, 12, 31)
  const Christmas: LocalDate := Date(2024, 12, 25)
  const DayAfterNewYear: LocalDate := Date(2025, 1, 2)

  lemma NewYearIsWednesday()
    ensures DayOfWeekOf(NewYear) == Wednesday
  {
    assert EpochDay(NewYear) == 20089;
  }

  /** Derived from the new year's weekday rather than computed afresh. */
  lemma DayAfterNewYearIsThursday()
    ensures DayOfWeekOf(DayAfterNewYear) == Thursday
  {
    NewYearIsWednesday();
    NextDayDayOfWeek(NewYear);
  }

  lemma NewYearsEveIsTuesday()
    ensures DayOfWeekOf(NewYearsEve) == Tuesday
  {
    NewYearIsWednesday();
    NextDayDayOfWeek(NewYearsEve);
  }

  lemma ChristmasIsWednesday()
    ensures DayOfWeekOf(Christmas) == Wednesday
  {
    assert EpochDay(Christmas) == 20082;
  }

  /** The second holiday of the controller's tests, counted there as a weekday. */
  lemma NextChristmasIsThursday()
    ensures DayOfWeekOf(Date(2025, 12, 25)) == Thursday
  {
    assert EpochDay(Date(2025, 12, 25)) == 20447;
  }

  /** The count test's repository: US has the new year only, IN the new year and the day after. */
  function TestRepository(): Repository {
    (year: int, code: string) =>
      if year == 2025 && code == "US" then Holidays([Holiday(NewYear, "New Year's Day")])
      else if year == 2025 && code == "IN" then
        Holidays([Holiday(NewYear, "New Year's Day"), Holiday(DayAfterNewYear, "Day After New Year")])
      else Holidays([])
  }

  /** Both new-year holidays fall on a weekday, so IN ranks first with 2 and US follows with 1. */
  lemma NonWeekendCountScenario()
    ensures GetNonWeekendHolidaysCount(TestRepository(), 2025, ["US", "IN"])
         == Success([CountryHolidayCount("IN", 2), CountryHolidayCount("US", 1)])
  {
    var usCount, inCount := CountryHolidayCount("US", 1), CountryHolidayCount("IN", 2);
    TestCountEach();
    TestRanking(usCount, inCount);
  }

  lemma TestCounts()
    ensures CountNonWeekendHolidays(TestRepository(), 2025, "US") == Success(1)
    ensures CountNonWeekendHolidays(TestRepository(), 2025, "IN") == Success(2)
  {
    NewYearIsWednesday();
    DayAfterNewYearIsThursday();
    var repo := TestRepository();
    var us, india := repo(2025, "US").list, repo(2025, "IN").list;
    assert Filter(us, OnWeekday) == us;
    assert Filter(india, OnWeekday) == india;
  }

  lemma TestCountEach()
    ensures CountEach(TestRepository(), 2025, ["US", "IN"])
         == Success([CountryHolidayCount("US", 1), CountryHolidayCount("IN", 2)])
  {
    TestCounts();
    var repo := TestRepository();
    var usCount, inCount := CountryHolidayCount("US", 1), CountryHolidayCount("IN", 2);
    assert CountEach(repo, 2025, []) == Success([]);
    CountEachStep(repo, 2025, "IN", [], []);
    assert ["IN"] + [] == ["IN"] && [inCount] + [] == [inCount];
    CountEachStep(repo, 2025, "US", ["IN"], [inCount]);
    assert ["US"] + ["IN"] == ["US", "IN"] && [usCount] + [inCount] == [usCount, inCount];
  }

  /** One step of the mapping, for a code whose count is known. */
  lemma CountEachStep(repo: Repository, year: int, code: string, rest: seq<string>, counts: seq<CountryHolidayCount>)
    requires CountNonWeekendHolidays(repo, year, code).Success?
    requires CountEach(repo, year, rest) == Success(counts)
    ensures CountEach(repo, year, [code] + rest)
         == Success([CountryHolidayCount(code, CountNonWeekendHolidays(repo, year, code).value)] + counts)
  {
    var codes := [code] + rest;
    assert codes[0] == code && codes[1..] == rest;
  }

  lemma TestRanking(usCount: CountryHolidayCount, inCount: CountryHolidayCount)
    requires usCount == CountryHolidayCount("US", 1) && inCount == CountryHolidayCount("IN", 2)
    ensures SortBy([usCount, inCount], ByCountDescending) == [inCount, usCount]
  {
    var counts := [usCount, inCount];
    assert counts[1..] == [inCount] && [inCount][1..] == [];
    assert SortBy([inCount], ByCountDescending) == [inCount];
    assert Insert(usCount, [inCount], ByCountDescending) == [inCount, usCount];
  }

  /** A country with no holidays ranks alone with a count of 0. */
  lemma ZeroCountScenario(repo: Repository)
    requires repo(2025, "US") == Holidays([])
    ensures GetNonWeekendHolidaysCount(repo, 2025, ["US"]) == Success([CountryHolidayCount("US", 0)])
  {
    var counts := CountEach(repo, 2025, ["US"]).value;
    assert counts == [CountryHolidayCount("US", 0)] by {
      assert counts[0].countryCode == "US" && CountNonWeekendHolidays(repo, 2025, "US") == Success(counts[0].count);
    }
    var r := GetNonWeekendHolidaysCount(repo, 2025, ["US"]).value;
    assert r[0] in multiset(r);
  }

  /**
   * The three holidays of the count test fall on Wednesday, Tuesday and
   * Wednesday, so all three count.
   */
  lemma CountScenario(repo: Repository, h1: Holiday, h2: Holiday, h3: Holiday)
    requires h1.date == NewYear && h2.date == NewYearsEve && h3.date == Christmas
    requires repo(2025, "US") == Holidays([h1, h2, h3])
    ensures CountNonWeekendHolidays(repo, 2025, "US") == Success(3)
  {
    NewYearIsWednesday();
    NewYearsEveIsTuesday();
    ChristmasIsWednesday();
    FilterKeepsAll([h1, h2, h3], OnWeekday);
  }

  /** An empty year counts 0. */
  lemma EmptyCountScenario(repo: Repository)
    requires repo(2025, "US") == Holidays([])
    ensures CountNonWeekendHolidays(repo, 2025, "US") == Success(0)
  {
  }

  /**
   * The common-holidays test: US has the new year and New Year's Eve, IN
   * the new year and Christmas, so only the new year is shared and the US
   * holiday of that date comes back.
   */
  lemma CommonHolidaysScenario(repo: Repository, h1: Holiday, h2: Holiday, h3: Holiday)
    requires h1.date == NewYear && h2.date == NewYearsEve && h3.date == Christmas
    requires repo(2025, "US") == Holidays([h1, h2]) && repo(2025, "IN") == Holidays([h1, h3])
    ensures GetCommonHolidays(repo, 2025, "US", "IN") == Success([h1])
  {
    var r := GetCommonHolidays(repo, 2025, "US", "IN");
    SharedDates(h1, h2, h3);
    OnlyShared(repo(2025, "US").list, r.value, h1);
  }

  lemma SharedDates(h1: Holiday, h2: Holiday, h3: Holiday)
    requires h1.date == NewYear && h2.date == NewYearsEve && h3.date == Christmas
    ensures DatesOf([h1, h2]) * DatesOf([h1, h3]) == {NewYear}
  {
    var hs1, hs2 := [h1, h2], [h1, h3];
    assert DatesOf(hs1) == {NewYear, NewYearsEve} by {
      assert forall h :: h in hs1 <==> h == h1 || h == h2;
    }
    assert DatesOf(hs2) == {NewYear, Christmas} by {
      assert forall h :: h in hs2 <==> h == h1 || h == h3;
    }
  }

  /** An ascending list of first-of-date holidays with one date is that date's first holiday. */
  lemma OnlyShared(hs1: seq<Holiday>, r: seq<Holiday>, h1: Holiday)
    requires |hs1| > 0 && hs1[0] == h1
    requires StrictlyAscendingByDate(r) && DatesOf(r) == {h1.date}
    requires forall h :: h in r ==> IsFirstWithDate(hs1, h)
    ensures r == [h1]
  {
    assert r != [] by {
      assert h1.date in DatesOf(r);
    }
    forall i | 0 <= i < |r|
      ensures r[i].date == h1.date
    {
      assert r[i].date in DatesOf(r);
    }
    assert |r| == 1 by {
      assert !IsBefore(r[0].date, r[|r| - 1].date);
    }
    var h := r[0];
    assert IsFirstWithDate(hs1, h);
  }

  /** US has only the new year and IN only the day after, so nothing is shared. */
  lemma NoCommonHolidaysScenario(repo: Repository, h1: Holiday, h4: Holiday)
    requires h1.date == NewYear && h4.date == DayAfterNewYear
    requires repo(2025, "US") == Holidays([h1]) && repo(2025, "IN") == Holidays([h4])
    ensures GetCommonHolidays(repo, 2025, "US", "IN") == Success([])
  {
    assert DatesOf([h1]) == {NewYear} by {
      assert forall h :: h in [h1] <==> h == h1;
    }
    assert DatesOf([h4]) == {DayAfterNewYear} by {
      assert forall h :: h in [h4] <==> h == h4;
    }
  }

  /**
   * The current year alone has three holidays up to today, so only it is
   * fetched and they come back newest first.
   */
  method ThreeCurrentScenario(repo: Repository, today: LocalDate, h1: Holiday, h2: Holiday, h3: Holiday)
    returns (r: Result<seq<Holiday>>, requested: seq<Request>)
    requires h1.date == NewYear && h2.date == NewYearsEve && h3.date == Christmas
    requires repo(2025, "US") == Holidays([h1, h2, h3])
    requires today.year == 2025
    ensures requested == [Request(2025, "US")]
    ensures r == Success([h1, h2, h3])
  {
    r, requested := GetLastThreeHolidays(repo, "US", 2025, today);
    ThreeCurrentFacts(repo, today, h1, h2, h3);
    assert requested == [requested[0]];
  }

  lemma ThreeCurrentFacts(repo: Repository, today: LocalDate, h1: Holiday, h2: Holiday, h3: Holiday)
    requires h1.date == NewYear && h2.date == NewYearsEve && h3.date == Christmas
    requires repo(2025, "US") == Holidays([h1, h2, h3])
    requires today.year == 2025
    ensures PastNewestFirst(repo(2025, "US").list, today) == [h1, h2, h3]
    ensures |PastNewestFirst(repo(2025, "US").list, today)| == 3
  {
    ThreeScenario(h1, h2, h3, today);
  }

  /** An empty current year: both years are fetched and last year's two come back. */
  method PreviousYearOnlyScenario(repo: Repository, today: LocalDate, h2: Holiday, h3: Holiday)
    returns (r: Result<seq<Holiday>>, requested: seq<Request>)
    requires h2.date == NewYearsEve && h3.date == Christmas
    requires repo(2025, "US") == Holidays([]) && repo(2024, "US") == Holidays([h2, h3])
    requires today.year == 2025
    ensures requested == [Request(2025, "US"), Request(2024, "US")]
    ensures r == Success([h2, h3])
  {
    PreviousScenario(h2, h3, today);
    assert PastNewestFirst([], today) == [];
    r, requested := GetLastThreeHolidays(repo, "US", 2025, today);
    assert requested == [requested[0], requested[1]];
    assert [] + [h2, h3] == [h2, h3];
  }

  /** Both years empty: both are fetched and the answer is empty. */
  method BothYearsEmptyScenario(repo: Repository, today: LocalDate)
    returns (r: Result<seq<Holiday>>, requested: seq<Request>)
    requires repo(2025, "US") == Holidays([]) && repo(2024, "US") == Holidays([])
    ensures requested == [Request(2025, "US"), Request(2024, "US")]
    ensures r == Success([])
  {
    assert PastNewestFirst([], today) == [];
    r, requested := GetLastThreeHolidays(repo, "US", 2025, today);
    assert requested == [requested[0], requested[1]];
  }

  /**
   * The repository is stubbed as in the test: 2025 has only a new-year
   * holiday, 2024 ends with New Year's Eve and Christmas. On any day of
   * 2025 one holiday this year is too few, so the two most recent of last
   * year fill the list.
   */
  method FallbackScenario(repo: Repository, today: LocalDate, h1: Holiday, h2: Holiday, h3: Holiday)
    returns (r: Result<seq<Holiday>>, requested: seq<Request>)
    requires h1.date == NewYear && h2.date == NewYearsEve && h3.date == Christmas
    requires repo(2025, "US") == Holidays([h1]) && repo(2024, "US") == Holidays([h2, h3])
    requires today.year == 2025
    ensures requested == [Request(2025, "US"), Request(2024, "US")]
    ensures r == Success([h1, h2, h3])
  {
    FallbackFacts(repo, today, h1, h2, h3);
    r, requested := GetLastThreeHolidays(repo, "US", 2025, today);
    assert |requested| == 2;
    assert requested == [requested[0], requested[1]];
  }

  lemma FallbackFacts(repo: Repository, today: LocalDate, h1: Holiday, h2: Holiday, h3: Holiday)
    requires h1.date == NewYear && h2.date == NewYearsEve && h3.date == Christmas
    requires repo(2025, "US") == Holidays([h1]) && repo(2024, "US") == Holidays([h2, h3])
    requires today.year == 2025
    ensures |PastNewestFirst(repo(2025, "US").list, today)| == 1
    ensures Take(PastNewestFirst(repo(2025, "US").list, today) + PastNewestFirst(repo(2024, "US").list, today), 3)
         == [h1, h2, h3]
  {
    PastScenario(h1, h2, h3, today);
    assert [h1] + [h2, h3] == [h1, h2, h3];
  }

  lemma PastScenario(h1: Holiday, h2: Holiday, h3: Holiday, today: LocalDate)
    requires h1.date == NewYear && h2.date == NewYearsEve && h3.date == Christmas
    requires today.year == 2025
    ensures PastNewestFirst([h1], today) == [h1]
    ensures PastNewestFirst([h2, h3], today) == [h2, h3]
  {
    PreviousScenario(h2, h3, today);
    assert [h1][1..] == [];
    assert Filter([h1], NotAfter(today)) == [h1];
    assert SortBy([h1], NewestFirst) == [h1];
  }

  /** The three holidays of the first test, already newest first, all up to today. */
  lemma ThreeScenario(h1: Holiday, h2: Holiday, h3: Holiday, today: LocalDate)
    requires h1.date == NewYear && h2.date == NewYearsEve && h3.date == Christmas
    requires today.year == 2025
    ensures PastNewestFirst([h1, h2, h3], today) == [h1, h2, h3]
  {
    PreviousScenario(h2, h3, today);
    var hs := [h1, h2, h3];
    FilterKeepsAll(hs, NotAfter(today));
    assert hs[1..] == [h2, h3];
    assert SortBy(hs, NewestFirst) == Insert(h1, SortBy([h2, h3], NewestFirst), NewestFirst);
    assert Insert(h1, [h2, h3], NewestFirst) == [h1, h2, h3];
  }

  /** Last year's two holidays, both before any day of 2025, newest first. */
  lemma PreviousScenario(h2: Holiday, h3: Holiday, today: LocalDate)
    requires h2.date == NewYearsEve && h3.date == Christmas
    requires today.year == 2025
    ensures PastNewestFirst([h2, h3], today) == [h2, h3]
  {
    assert [h2, h3][1..] == [h3] && [h3][1..] == [];
    assert Filter([h3], NotAfter(today)) == [h3];
    assert Filter([h2, h3], NotAfter(today)) == [h2, h3];
    assert SortBy([h3], NewestFirst) == [h3];
    assert Insert(h2, [h3], NewestFirst) == [h2, h3];
  }

  /**
   * As written, a current year with more than three holidays up to today
   * is returned whole: four such holidays all come back, not three.
   */
  method UncappedScenario(repo: Repository, today: LocalDate) returns (r: Result<seq<Holiday>>, requested: seq<Request>)
    requires repo(2025, "US").Holidays? && |repo(2025, "US").list| == 4
    requires forall h :: h in repo(2025, "US").list ==> !IsAfter(h.date, today)
    ensures requested == [Request(2025, "US")]
    ensures r.Success? && |r.value| == 4
  {
    AllPast(repo(2025, "US").list, today);
    r, requested := GetLastThreeHolidays(repo, "US", 2025, today);
  }

  /** The corrected call cuts the same answer to three. */
  method CappedScenario(repo: Repository, today: LocalDate) returns (r: Result<seq<Holiday>>, requested: seq<Request>)
    requires repo(2025, "US").Holidays? && |repo(2025, "US").list| == 4
    requires forall h :: h in repo(2025, "US").list ==> !IsAfter(h.date, today)
    ensures requested == [Request(2025, "US")]
    ensures r.Success? && |r.value| == 3
  {
    AllPast(repo(2025, "US").list, today);
    r, requested := GetLastThreeHolidaysCapped(repo, "US", 2025, today);
  }

  lemma AllPast(hs: seq<Holiday>, today: LocalDate)
    requires forall h :: h in hs ==> !IsAfter(h.date, today)
    ensures |PastNewestFirst(hs, today)| == |hs|
  {
    FilterKeepsAll(hs, NotAfter(today));
    var r := PastNewestFirst(hs, today);
    assert r == SortBy(Filter(hs, NotAfter(today)), NewestFirst);
    assert |multiset(r)| == |multiset(hs)|;
  }
}
