/**
 * HolidayService: the last three holidays of a country, the ranking of
 * countries by holidays that fall on a weekday, and the holidays two
 * countries share.
 *
 * The repository is a parameter: a function from (year, country code) to
 * the holidays it fetched or to a transport failure. The clock is two
 * parameters, the current year and today's date, which the service reads
 * separately.
 */
module HolidayService {
  import opened Calendar
  import opened HolidayModel
  import opened Sequences
  import opened StableSort

  /** What `HolidayRepository.fetchHolidays(year, countryCode)` gives back. */
  datatype Fetched =
    | Holidays(list: seq<Holiday>)  // the decoded holidays; empty for an empty body or a non-2xx status
    | Unavailable                   // the REST client failed

  /** The repository as the service sees it: one answer per (year, country code). */
  type Repository = (int, string) -> Fetched

  /** `HolidayException`, with the exception it wraps. */
  datatype HolidayException =
    | FetchFailed                           // the upstream provider could not be reached
    | CountFailed(cause: HolidayException)  // the ranking failed; wraps the fetch failure

  datatype Result<T> = Success(value: T) | Failure(error: HolidayException)

  /** One call of `fetchHolidays`. */
  datatype Request = Request(year: int, countryCode: string)

  /* ---------------------------------------------------------------------
   * getLastThreeHolidays
   * ------------------------------------------------------------------- */

  /** The holiday has already happened, or happens today. */
  function NotAfter(today: LocalDate): Holiday -> bool {
    (h: Holiday) => !IsAfter(h.date, today)
  }

  /** Sort key that puts later dates first. */
  function NewestFirst(h: Holiday): int {
    -Ordinal(h.date)
  }

  ghost predicate NewestFirstOrder(s: seq<Holiday>) {
    forall i, j :: 0 <= i < j < |s| ==> !IsBefore(s[i].date, s[j].date)
  }

  /** One year's pipeline: the holidays dated on or before `today`, newest first. */
  function PastNewestFirst(hs: seq<Holiday>, today: LocalDate): seq<Holiday> {
    SortBy(Filter(hs, NotAfter(today)), NewestFirst)
  }

  /**
   * The pipeline keeps exactly the holidays not after `today`, every copy
   * of each, and lists them newest first.
   */
  lemma PastNewestFirstSpec(hs: seq<Holiday>, today: LocalDate)
    ensures var r := PastNewestFirst(hs, today);
      && (forall h :: h in r ==> h in hs && !IsAfter(h.date, today))
      && (forall h :: h in hs ==> multiset(r)[h] == if IsAfter(h.date, today) then 0 else multiset(hs)[h])
      && NewestFirstOrder(r)
  {
    var past := Filter(hs, NotAfter(today));
    var r := SortBy(past, NewestFirst);
    FilterMultiset(hs, NotAfter(today));
    forall i, j | 0 <= i < j < |r|
      ensures !IsBefore(r[i].date, r[j].date)
    {
      OrdinalOrder(r[i].date, r[j].date);
    }
    forall h | h in r
      ensures h in past
    {
      assert h in multiset(r);
    }
  }

  /** Every fetch of `year` answers with holidays dated in `year`. */
  ghost predicate AnswersOwnYear(repo: Repository, year: int, countryCode: string) {
    repo(year, countryCode).Holidays? ==> forall h :: h in repo(year, countryCode).list ==> h.date.year == year
  }

  /**
   * `getLastThreeHolidays`. The current year's holidays up to today, newest
   * first; only when there are fewer than three, the previous year's are
   * fetched, appended after them and the whole cut to three.
   */
  method GetLastThreeHolidays(repo: Repository, countryCode: string, currentYear: int, today: LocalDate)
    returns (r: Result<seq<Holiday>>, requested: seq<Request>)
    // the current year is fetched first; the previous year only when the
    // current one leaves fewer than three holidays
    ensures 1 <= |requested| <= 2 && requested[0] == Request(currentYear, countryCode)
    ensures |requested| == 2 <==>
      repo(currentYear, countryCode).Holidays? && |PastNewestFirst(repo(currentYear, countryCode).list, today)| < 3
    ensures |requested| == 2 ==> requested[1] == Request(currentYear - 1, countryCode)
    // a failed fetch fails the call
    ensures r.Failure? <==>
      repo(currentYear, countryCode).Unavailable? || (|requested| == 2 && repo(currentYear - 1, countryCode).Unavailable?)
    ensures r.Failure? ==> r.error == FetchFailed
    // nothing after today is returned
    ensures r.Success? ==> forall h :: h in r.value ==> !IsAfter(h.date, today)
    // enough in the current year: all of them, not cut to three
    ensures r.Success? && |requested| == 1 ==>
      r.value == PastNewestFirst(repo(currentYear, countryCode).list, today) && |r.value| >= 3
    // otherwise: the current year's, then the previous year's, at most three
    ensures r.Success? && |requested| == 2 ==>
      var current := PastNewestFirst(repo(currentYear, countryCode).list, today);
      var previous := PastNewestFirst(repo(currentYear - 1, countryCode).list, today);
      && r.value == Take(current + previous, 3)
      && current <= r.value
      && |r.value| <= 3
      && (r.value == [] <==> current == [] && previous == [])
    // newest first throughout when each year's fetch holds only that year's dates
    ensures r.Success? && AnswersOwnYear(repo, currentYear, countryCode) && AnswersOwnYear(repo, currentYear - 1, countryCode) ==>
      NewestFirstOrder(r.value)
  {
    requested := [Request(currentYear, countryCode)];
    var fetched := repo(currentYear, countryCode);
    if fetched.Unavailable? {
      return Failure(FetchFailed), requested;
    }
    var holidays := PastNewestFirst(fetched.list, today);
    PastNewestFirstSpec(fetched.list, today);
    if |holidays| < 3 {
      requested := requested + [Request(currentYear - 1, countryCode)];
      var fetchedPrevious := repo(currentYear - 1, countryCode);
      if fetchedPrevious.Unavailable? {
        return Failure(FetchFailed), requested;
      }
      var previous := PastNewestFirst(fetchedPrevious.list, today);
      PastNewestFirstSpec(fetchedPrevious.list, today);
      ghost var current := holidays;
      FallbackList(current, previous);
      holidays := holidays + previous;
      holidays := Take(holidays, 3);
      if AnswersOwnYear(repo, currentYear, countryCode) && AnswersOwnYear(repo, currentYear - 1, countryCode) {
        YearsAppendNewestFirst(current, previous, currentYear);
      }
    }
    r := Success(holidays);
  }

  /**
   * `getLastThreeHolidays` with the cut to three applied on both branches,
   * as its documentation promises: at most three holidays, the newest
   * ones in the order the uncapped call lists them.
   */
  method GetLastThreeHolidaysCapped(repo: Repository, countryCode: string, currentYear: int, today: LocalDate)
    returns (r: Result<seq<Holiday>>, requested: seq<Request>)
    ensures 1 <= |requested| <= 2 && requested[0] == Request(currentYear, countryCode)
    ensures |requested| == 2 <==>
      repo(currentYear, countryCode).Holidays? && |PastNewestFirst(repo(currentYear, countryCode).list, today)| < 3
    ensures |requested| == 2 ==> requested[1] == Request(currentYear - 1, countryCode)
    ensures r.Failure? <==>
      repo(currentYear, countryCode).Unavailable? || (|requested| == 2 && repo(currentYear - 1, countryCode).Unavailable?)
    ensures r.Failure? ==> r.error == FetchFailed
    ensures r.Success? ==> |r.value| <= 3 && forall h :: h in r.value ==> !IsAfter(h.date, today)
    // enough in the current year: its three newest
    ensures r.Success? && |requested| == 1 ==>
      r.value == Take(PastNewestFirst(repo(currentYear, countryCode).list, today), 3) && |r.value| == 3
    // otherwise as before: the current year's, then the previous year's, at most three
    ensures r.Success? && |requested| == 2 ==>
      r.value == Take(PastNewestFirst(repo(currentYear, countryCode).list, today)
                      + PastNewestFirst(repo(currentYear - 1, countryCode).list, today), 3)
    ensures r.Success? && AnswersOwnYear(repo, currentYear, countryCode) && AnswersOwnYear(repo, currentYear - 1, countryCode) ==>
      NewestFirstOrder(r.value)
  {
    r, requested := GetLastThreeHolidays(repo, countryCode, currentYear, today);
    if r.Success? {
      var uncapped := r.value;
      TakeKeepsNewestFirst(uncapped, 3);
      if |requested| == 2 {
        assert Take(uncapped, 3) == uncapped;
      }
      r := Success(Take(uncapped, 3));
    }
  }

  /** A prefix of a newest-first list is newest first and holds nothing new. */
  lemma TakeKeepsNewestFirst(s: seq<Holiday>, n: nat)
    ensures forall h :: h in Take(s, n) ==> h in s
    ensures NewestFirstOrder(s) ==> NewestFirstOrder(Take(s, n))
  {
    var r := Take(s, n);
    assert forall i :: 0 <= i < |r| ==> r[i] == s[i];
  }

  /** The fallback list starts with all of the current year's holidays and holds nothing else. */
  lemma FallbackList(current: seq<Holiday>, previous: seq<Holiday>)
    requires |current| < 3
    ensures var r := Take(current + previous, 3);
      && current <= r
      && (forall h :: h in r ==> h in current || h in previous)
      && (r == [] <==> current == [] && previous == [])
  {
    var all := current + previous;
    var r := Take(all, 3);
    assert current <= r by {
      assert forall i :: 0 <= i < |current| ==> r[i] == all[i];
    }
    forall h | h in r
      ensures h in current || h in previous
    {
      assert h in all;
    }
    if previous != [] {
      assert r[|current|] == previous[0];
    }
  }

  /**
   * Appending a previous year's newest-first holidays after the current
   * year's keeps newest-first order, and so does cutting the result short.
   */
  lemma YearsAppendNewestFirst(current: seq<Holiday>, previous: seq<Holiday>, year: int)
    requires NewestFirstOrder(current) && NewestFirstOrder(previous)
    requires forall h :: h in current ==> h.date.year == year
    requires forall h :: h in previous ==> h.date.year == year - 1
    ensures NewestFirstOrder(Take(current + previous, 3))
  {
    var all := current + previous;
    assert NewestFirstOrder(all) by {
      forall i, j | 0 <= i < j < |all|
        ensures !IsBefore(all[i].date, all[j].date)
      {
        if j >= |current| && i < |current| {
          assert all[i] in current && all[j] in previous;
        } else if i >= |current| {
          assert all[i] == previous[i - |current|] && all[j] == previous[j - |current|];
        }
      }
    }
  }

  /* ---------------------------------------------------------------------
   * isWeekend, countNonWeekendHolidays, getNonWeekendHolidaysCount
   * ------------------------------------------------------------------- */

  /** `isWeekend`: the date falls on a Saturday or a Sunday. */
  predicate IsWeekend(date: LocalDate) {
    DayOfWeekOf(date) == Saturday || DayOfWeekOf(date) == Sunday
  }

  /**
   * Counted from 1970-01-01, a Thursday, the weekend falls two and three
   * days past each multiple of seven.
   */
  lemma WeekendByEpochDay(date: LocalDate)
    ensures IsWeekend(date) <==> EpochDay(date) % 7 == 2 || EpochDay(date) % 7 == 3
  {
    WeekIndexShift(EpochDay(date));
  }

  lemma WeekIndexShift(e: int)
    ensures (e + 3) % 7 == if e % 7 < 4 then e % 7 + 3 else e % 7 - 4
  {
    var q, m := e / 7, e % 7;
    if m < 4 {
      assert e + 3 == 7 * q + (m + 3);
    } else {
      assert e + 3 == 7 * (q + 1) + (m - 4);
    }
  }

  /** The holiday falls on a weekday. */
  function OnWeekday(h: Holiday): bool {
    !IsWeekend(h.date)
  }

  /**
   * `countNonWeekendHolidays`: how many of the fetched holidays fall on
   * neither Saturday nor Sunday. A failed fetch propagates.
   */
  function CountNonWeekendHolidays(repo: Repository, year: int, countryCode: string): (r: Result<int>)
    ensures r.Failure? <==> repo(year, countryCode).Unavailable?
    ensures r.Failure? ==> r.error == FetchFailed
    ensures r.Success? ==>
      var hs := repo(year, countryCode).list;
      && r.value == |set i | 0 <= i < |hs| && !IsWeekend(hs[i].date)|
      && 0 <= r.value <= |hs|
      && (hs == [] ==> r.value == 0)
  {
    match repo(year, countryCode)
    case Unavailable => Failure(FetchFailed)
    case Holidays(hs) =>
      FilterLengthIsPositionCount(hs, OnWeekday);
      assert PassingPositions(hs, OnWeekday) == set i | 0 <= i < |hs| && !IsWeekend(hs[i].date);
      Success(if hs == [] then 0 else |Filter(hs, OnWeekday)|)
  }

  /** The mapping step: one `CountryHolidayCount` per code, in input order; any failure fails it. */
  function CountEach(repo: Repository, year: int, codes: seq<string>): (r: Result<seq<CountryHolidayCount>>)
    ensures r.Failure? <==> exists i :: 0 <= i < |codes| && repo(year, codes[i]).Unavailable?
    ensures r.Failure? ==> r.error == FetchFailed
    ensures r.Success? ==>
      && |r.value| == |codes|
      && forall i :: 0 <= i < |codes| ==>
           r.value[i].countryCode == codes[i] && CountNonWeekendHolidays(repo, year, codes[i]) == Success(r.value[i].count)
  {
    if codes == [] then Success([])
    else
      match CountNonWeekendHolidays(repo, year, codes[0])
      case Failure(e) => Failure(e)
      case Success(n) =>
        match CountEach(repo, year, codes[1..])
        case Failure(e) =>
          assert forall i :: 0 <= i < |codes[1..]| ==> codes[1..][i] == codes[i + 1];
          Failure(e)
        case Success(rest) =>
          assert forall i :: 0 <= i < |codes[1..]| ==> codes[1..][i] == codes[i + 1];
          Success([CountryHolidayCount(codes[0], n)] + rest)
  }

  /** Sort key that puts higher counts first. */
  function ByCountDescending(c: CountryHolidayCount): int {
    -c.count
  }

  /**
   * `getNonWeekendHolidaysCount`: each code with its count, largest count
   * first; equal counts keep the input order. Any failed fetch fails the
   * whole call, wrapped once more.
   */
  function GetNonWeekendHolidaysCount(repo: Repository, year: int, codes: seq<string>): (r: Result<seq<CountryHolidayCount>>)
    ensures r.Failure? <==> exists i :: 0 <= i < |codes| && repo(year, codes[i]).Unavailable?
    ensures r.Failure? ==> r.error == CountFailed(FetchFailed)
    ensures r.Success? ==>
      && |r.value| == |codes|
      && multiset(r.value) == multiset(CountEach(repo, year, codes).value)
      && (forall i, j :: 0 <= i < j < |r.value| ==> r.value[i].count >= r.value[j].count)
      && (forall c :: c in r.value ==> c.count >= 0 && CountNonWeekendHolidays(repo, year, c.countryCode) == Success(c.count))
  {
    match CountEach(repo, year, codes)
    case Failure(e) => Failure(CountFailed(e))
    case Success(counts) =>
      var sorted := SortBy(counts, ByCountDescending);
      RankedCounts(repo, year, codes, counts, sorted);
      Success(sorted)
  }

  lemma RankedCounts(repo: Repository, year: int, codes: seq<string>, counts: seq<CountryHolidayCount>, sorted: seq<CountryHolidayCount>)
    requires CountEach(repo, year, codes) == Success(counts)
    requires sorted == SortBy(counts, ByCountDescending)
    ensures |sorted| == |codes|
    ensures forall i, j :: 0 <= i < j < |sorted| ==> sorted[i].count >= sorted[j].count
    ensures forall c :: c in sorted ==> c.count >= 0 && CountNonWeekendHolidays(repo, year, c.countryCode) == Success(c.count)
  {
    assert |sorted| == |counts| by {
      assert |multiset(sorted)| == |multiset(counts)|;
    }
    forall i, j | 0 <= i < j < |sorted|
      ensures sorted[i].count >= sorted[j].count
    {
      assert ByCountDescending(sorted[i]) <= ByCountDescending(sorted[j]);
    }
    forall c | c in sorted
      ensures c.count >= 0 && CountNonWeekendHolidays(repo, year, c.countryCode) == Success(c.count)
    {
      assert c in multiset(sorted);
      var i :| 0 <= i < |counts| && counts[i] == c;
      assert CountNonWeekendHolidays(repo, year, codes[i]) == Success(c.count);
    }
  }

  /** The test "has count `n`". */
  function WithCount(n: int): CountryHolidayCount -> bool {
    (c: CountryHolidayCount) => c.count == n
  }

  /** Countries with equal counts appear in the order their codes were given. */
  lemma TiesKeepInputOrder(repo: Repository, year: int, codes: seq<string>, n: int)
    requires GetNonWeekendHolidaysCount(repo, year, codes).Success?
    ensures Filter(GetNonWeekendHolidaysCount(repo, year, codes).value, WithCount(n))
         == Filter(CountEach(repo, year, codes).value, WithCount(n))
  {
    var counts := CountEach(repo, year, codes).value;
    assert GetNonWeekendHolidaysCount(repo, year, codes).value == SortBy(counts, ByCountDescending);
    RankingStable(counts, n);
  }

  lemma RankingStable(counts: seq<CountryHolidayCount>, n: int)
    ensures Filter(SortBy(counts, ByCountDescending), WithCount(n)) == Filter(counts, WithCount(n))
  {
    var p := WithCount(n);
    forall c
      ensures p(c) <==> ByCountDescending(c) == -n
    {
      assert p(c) == (c.count == n);
    }
    SortByStable(counts, ByCountDescending, -n, p);
  }

  /* ---------------------------------------------------------------------
   * getCommonHolidays
   * ------------------------------------------------------------------- */

  /** The dates that occur in `hs`. */
  ghost function DatesOf(hs: seq<Holiday>): set<LocalDate> {
    set h | h in hs :: h.date
  }

  /** `HashSet.contains(h)`: some element equals `h`. */
  predicate Contains(elems: seq<Holiday>, h: Holiday)
    ensures Contains(elems, h) <==> h.date in DatesOf(elems)
  {
    exists e :: e in elems && Equals(h, HolidayObj(e))
  }

  /** `HashSet.add(h)`: a holiday equal to one already present is not added. */
  function Add(elems: seq<Holiday>, h: Holiday): (r: seq<Holiday>)
    ensures elems <= r && |r| <= |elems| + 1
    ensures DatesOf(r) == DatesOf(elems) + {h.date}
    ensures |r| == |elems| <==> h.date in DatesOf(elems)
    ensures h.date !in DatesOf(elems) ==> r == elems + [h]
  {
    if Contains(elems, h) then elems else elems + [h]
  }

  ghost predicate DistinctDates(s: seq<Holiday>) {
    forall i, j :: 0 <= i < j < |s| ==> s[i].date != s[j].date
  }

  /** `h` is the first holiday of `hs` with its date. */
  ghost predicate IsFirstWithDate(hs: seq<Holiday>, h: Holiday) {
    exists i :: 0 <= i < |hs| && hs[i] == h && forall j :: 0 <= j < i ==> hs[j].date != h.date
  }

  /**
   * `new HashSet<>(hs)`: the holidays added in list order, so the first
   * holiday of each date is the one kept. The elements are kept here in
   * insertion order; the service sorts them afterwards.
   */
  function ToHashSet(hs: seq<Holiday>): (r: seq<Holiday>)
    ensures DatesOf(r) == DatesOf(hs)
    ensures DistinctDates(r)
    ensures forall h :: h in r ==> IsFirstWithDate(hs, h)
  {
    if hs == [] then []
    else
      var init, last := hs[..|hs| - 1], hs[|hs| - 1];
      assert hs == init + [last];
      var elems := ToHashSet(init);
      AddStep(init, last, elems);
      Add(elems, last)
  }

  /** One `add` keeps the set's dates, distinctness and first-wins choice in step with the list. */
  lemma AddStep(init: seq<Holiday>, last: Holiday, elems: seq<Holiday>)
    requires DatesOf(elems) == DatesOf(init) && DistinctDates(elems)
    requires forall h :: h in elems ==> IsFirstWithDate(init, h)
    ensures var r := Add(elems, last);
      && DatesOf(r) == DatesOf(init + [last])
      && DistinctDates(r)
      && forall h :: h in r ==> IsFirstWithDate(init + [last], h)
  {
    var hs := init + [last];
    assert DatesOf(hs) == DatesOf(init) + {last.date} by {
      assert forall h :: h in hs <==> h in init || h == last;
    }
    forall h | h in elems
      ensures IsFirstWithDate(hs, h)
    {
      FirstWithDateExtends(init, last, h);
    }
    if !Contains(elems, last) {
      FirstWithDateLast(init, last);
      var r := elems + [last];
      assert DatesOf(r) == DatesOf(elems) + {last.date} by {
        assert forall h :: h in r <==> h in elems || h == last;
      }
      forall i, j | 0 <= i < j < |r|
        ensures r[i].date != r[j].date
      {
        if j == |elems| {
          assert r[i] in elems;
        } else {
          assert r[i] == elems[i] && r[j] == elems[j];
        }
      }
    }
  }

  lemma FirstWithDateExtends(init: seq<Holiday>, last: Holiday, h: Holiday)
    requires IsFirstWithDate(init, h)
    ensures IsFirstWithDate(init + [last], h)
  {
    var i :| 0 <= i < |init| && init[i] == h && forall j :: 0 <= j < i ==> init[j].date != h.date;
    var hs := init + [last];
    assert hs[i] == h;
    assert forall j :: 0 <= j < i ==> hs[j] == init[j];
  }

  lemma FirstWithDateLast(init: seq<Holiday>, last: Holiday)
    requires last.date !in DatesOf(init)
    ensures IsFirstWithDate(init + [last], last)
  {
    var hs := init + [last];
    assert hs[|init|] == last;
    forall j | 0 <= j < |init|
      ensures hs[j].date != last.date
    {
      assert hs[j] == init[j] && init[j] in init;
    }
  }

  /** The second country's set holds a holiday of the same date. */
  function ContainedIn(elems: seq<Holiday>): Holiday -> bool {
    (h: Holiday) => Contains(elems, h)
  }

  /** Sort key that puts earlier dates first. */
  function OldestFirst(h: Holiday): int {
    Ordinal(h.date)
  }

  ghost predicate StrictlyAscendingByDate(s: seq<Holiday>) {
    forall i, j :: 0 <= i < j < |s| ==> IsBefore(s[i].date, s[j].date)
  }

  /**
   * `getCommonHolidays`: the holidays of the first country whose date the
   * second country also has, one per date, oldest first. A failed fetch
   * propagates.
   */
  function GetCommonHolidays(repo: Repository, year: int, countryCode1: string, countryCode2: string): (r: Result<seq<Holiday>>)
    ensures r.Failure? <==> repo(year, countryCode1).Unavailable? || repo(year, countryCode2).Unavailable?
    ensures r.Failure? ==> r.error == FetchFailed
    ensures r.Success? ==>
      var hs1, hs2 := repo(year, countryCode1).list, repo(year, countryCode2).list;
      && StrictlyAscendingByDate(r.value)
      && DatesOf(r.value) == DatesOf(hs1) * DatesOf(hs2)
      && (forall h :: h in r.value ==> IsFirstWithDate(hs1, h))
      && (r.value == [] <==> DatesOf(hs1) * DatesOf(hs2) == {})
  {
    match repo(year, countryCode1)
    case Unavailable => Failure(FetchFailed)
    case Holidays(hs1) =>
      match repo(year, countryCode2)
      case Unavailable => Failure(FetchFailed)
      case Holidays(hs2) =>
        var holidays1, holidays2 := ToHashSet(hs1), ToHashSet(hs2);
        var common := Filter(holidays1, ContainedIn(holidays2));
        var r := SortBy(common, OldestFirst);
        CommonHolidaysSorted(holidays1, holidays2, common, r);
        Success(r)
  }

  lemma CommonHolidaysSorted(holidays1: seq<Holiday>, holidays2: seq<Holiday>, common: seq<Holiday>, r: seq<Holiday>)
    requires DistinctDates(holidays1)
    requires common == Filter(holidays1, ContainedIn(holidays2))
    requires r == SortBy(common, OldestFirst)
    ensures StrictlyAscendingByDate(r)
    ensures forall h :: h in r <==> h in holidays1 && h.date in DatesOf(holidays2)
    ensures DatesOf(r) == DatesOf(holidays1) * DatesOf(holidays2)
    ensures r == [] <==> DatesOf(holidays1) * DatesOf(holidays2) == {}
  {
    CommonAscending(holidays1, holidays2, common, r);
    CommonMembers(holidays1, holidays2, common, r);
    CommonDates(holidays1, holidays2, r);
  }

  lemma CommonDates(holidays1: seq<Holiday>, holidays2: seq<Holiday>, r: seq<Holiday>)
    requires forall h :: h in r <==> h in holidays1 && h.date in DatesOf(holidays2)
    ensures DatesOf(r) == DatesOf(holidays1) * DatesOf(holidays2)
    ensures r == [] <==> DatesOf(holidays1) * DatesOf(holidays2) == {}
  {
    forall d
      ensures d in DatesOf(r) <==> d in DatesOf(holidays1) && d in DatesOf(holidays2)
    {
      if d in DatesOf(holidays1) && d in DatesOf(holidays2) {
        var h :| h in holidays1 && h.date == d;
        assert h in r;
      }
    }
    assert r != [] ==> r[0].date in DatesOf(r);
  }

  lemma CommonAscending(holidays1: seq<Holiday>, holidays2: seq<Holiday>, common: seq<Holiday>, r: seq<Holiday>)
    requires DistinctDates(holidays1)
    requires common == Filter(holidays1, ContainedIn(holidays2))
    requires r == SortBy(common, OldestFirst)
    ensures StrictlyAscendingByDate(r)
  {
    assert DistinctKeys(holidays1, OldestFirst) by {
      forall i, j | 0 <= i < j < |holidays1|
        ensures OldestFirst(holidays1[i]) != OldestFirst(holidays1[j])
      {
        OrdinalOrder(holidays1[i].date, holidays1[j].date);
      }
    }
    FilterDistinctKeys(holidays1, ContainedIn(holidays2), OldestFirst);
    SortByStrict(common, OldestFirst);
    forall i, j | 0 <= i < j < |r|
      ensures IsBefore(r[i].date, r[j].date)
    {
      OrdinalOrder(r[i].date, r[j].date);
    }
  }

  lemma CommonMembers(holidays1: seq<Holiday>, holidays2: seq<Holiday>, common: seq<Holiday>, r: seq<Holiday>)
    requires common == Filter(holidays1, ContainedIn(holidays2))
    requires r == SortBy(common, OldestFirst)
    ensures forall h :: h in r <==> h in holidays1 && h.date in DatesOf(holidays2)
  {
    forall h
      ensures h in r <==> h in common
    {
      assert h in r <==> h in multiset(r);
    }
    FilterMultiset(holidays1, ContainedIn(holidays2));
    forall h | h in holidays1
      ensures h in common <==> h.date in DatesOf(holidays2)
    {
      assert multiset(common)[h] == if Contains(holidays2, h) then multiset(holidays1)[h] else 0;
    }
  }

  /** Two strictly ascending lists with the same dates list them alike. */
  lemma {:induction false} AscendingDatesDetermined(a: seq<Holiday>, b: seq<Holiday>)
    requires StrictlyAscendingByDate(a) && StrictlyAscendingByDate(b)
    requires DatesOf(a) == DatesOf(b)
    ensures |a| == |b| && forall i :: 0 <= i < |a| ==> a[i].date == b[i].date
  {
    assert a != [] ==> a[0].date in DatesOf(a);
    assert b != [] ==> b[0].date in DatesOf(b);
    if a != [] && b != [] {
      AscendingHeadsAgree(a, b);
      AscendingTail(a);
      AscendingTail(b);
      AscendingDatesDetermined(a[1..], b[1..]);
      forall i | 1 <= i < |a|
        ensures a[i].date == b[i].date
      {
        assert a[i] == a[1..][i - 1] && b[i] == b[1..][i - 1];
      }
    }
  }

  /** The earliest date of a strictly ascending list comes first. */
  lemma AscendingHeadsAgree(a: seq<Holiday>, b: seq<Holiday>)
    requires a != [] && b != []
    requires StrictlyAscendingByDate(a) && StrictlyAscendingByDate(b)
    requires DatesOf(a) == DatesOf(b)
    ensures a[0].date == b[0].date
  {
    assert a[0].date in DatesOf(b) && b[0].date in DatesOf(a);
    var k :| 0 <= k < |b| && b[k].date == a[0].date;
    var m :| 0 <= m < |a| && a[m].date == b[0].date;
  }

  /** Dropping the head of a strictly ascending list drops exactly its date. */
  lemma AscendingTail(a: seq<Holiday>)
    requires a != [] && StrictlyAscendingByDate(a)
    ensures StrictlyAscendingByDate(a[1..])
    ensures DatesOf(a[1..]) == DatesOf(a) - {a[0].date}
  {
    var rest := a[1..];
    assert a == [a[0]] + rest;
    forall h | h in rest
      ensures h.date != a[0].date
    {
      var k :| 0 <= k < |rest| && rest[k] == h;
      assert a[k + 1] == h;
    }
  }

  /** Swapping the two countries gives the same dates in the same order. */
  lemma CommonHolidaysSymmetric(repo: Repository, year: int, countryCode1: string, countryCode2: string)
    requires GetCommonHolidays(repo, year, countryCode1, countryCode2).Success?
    ensures GetCommonHolidays(repo, year, countryCode2, countryCode1).Success?
    ensures
      var r12 := GetCommonHolidays(repo, year, countryCode1, countryCode2).value;
      var r21 := GetCommonHolidays(repo, year, countryCode2, countryCode1).value;
      |r12| == |r21| && forall i :: 0 <= i < |r12| ==> r12[i].date == r21[i].date
  {
    var r12 := GetCommonHolidays(repo, year, countryCode1, countryCode2).value;
    var r21 := GetCommonHolidays(repo, year, countryCode2, countryCode1).value;
    AscendingDatesDetermined(r12, r21);
  }
}
