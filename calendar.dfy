/**
 * The part of java.time.LocalDate the service relies on: dates of the
 * proleptic Gregorian calendar, their (year, month, day) order and the
 * day of the week.
 */
module Calendar {

  datatype DayOfWeek = Monday | Tuesday | Wednesday | Thursday | Friday | Saturday | Sunday

  /** Gregorian leap-year rule, applied to every year (proleptic). */
  predicate IsLeapYear(year: int) {
    year % 4 == 0 && (year % 100 != 0 || year % 400 == 0)
  }

  function LengthOfMonth(year: int, month: int): (n: int)
    requires 1 <= month <= 12
    ensures 28 <= n <= 31
    ensures n == 29 <==> month == 2 && IsLeapYear(year)
  {
    if month == 2 then (if IsLeapYear(year) then 29 else 28)
    else if month == 4 || month == 6 || month == 9 || month == 11 then 30
    else 31
  }

  datatype Date = Date(year: int, month: int, day: int)

  predicate ValidDate(d: Date) {
    1 <= d.month <= 12 && 1 <= d.day <= LengthOfMonth(d.year, d.month)
  }

  /** A date that exists in the calendar, as every LocalDate does. */
  type LocalDate = d: Date | ValidDate(d) witness Date(1970, 1, 1)

  /** `a.isBefore(b)`: `a` comes strictly first in (year, month, day) order. */
  predicate IsBefore(a: Date, b: Date) {
    a.year < b.year ||
    (a.year == b.year && (a.month < b.month || (a.month == b.month && a.day < b.day)))
  }

  /** `a.isAfter(b)`. */
  predicate IsAfter(a: Date, b: Date) {
    IsBefore(b, a)
  }

  /**
   * An integer that orders dates the way `LocalDate.compareTo` does:
   * months are 31 days wide and years 12 months wide, so no two dates
   * share one and earlier dates get smaller ones.
   */
  function Ordinal(d: LocalDate): int {
    (d.year * 12 + d.month - 1) * 31 + d.day - 1
  }

  lemma OrdinalOrder(a: LocalDate, b: LocalDate)
    ensures IsBefore(a, b) <==> Ordinal(a) < Ordinal(b)
    ensures a == b <==> Ordinal(a) == Ordinal(b)
  {
  }

  /**
   * The leap-day count `LocalDate.toEpochDay` adds for the years before
   * `year`. Java's `/` truncates toward zero; for a negative year its
   * `y / -4` is written `(-y) / 4` here.
   */
  function LeapDaysBefore(year: int): int {
    if year >= 0 then (year + 3) / 4 - (year + 99) / 100 + (year + 399) / 400
    else -((-year) / 4 - (-year) / 100 + (-year) / 400)
  }

  /** `LocalDate.toEpochDay`: days since 1970-01-01. */
  function EpochDay(d: LocalDate): int {
    var y, m := d.year, d.month;
    var total := 365 * y + LeapDaysBefore(y) + (367 * m - 362) / 12 + d.day - 1;
    var adjusted := if m <= 2 then total else if IsLeapYear(y) then total - 1 else total - 2;
    adjusted - 719528
  }

  /** `LocalDate.getDayOfWeek`: `floorMod(epochDay + 3, 7)`, 0 being Monday. */
  function DayOfWeekOf(d: LocalDate): DayOfWeek {
    match (EpochDay(d) + 3) % 7
    case 0 => Monday
    case 1 => Tuesday
    case 2 => Wednesday
    case 3 => Thursday
    case 4 => Friday
    case 5 => Saturday
    case _ => Sunday
  }

  /** The day after `d`, used only to prove that weekdays advance by one per day. */
  function NextDay(d: LocalDate): LocalDate {
    if d.day < LengthOfMonth(d.year, d.month) then Date(d.year, d.month, d.day + 1)
    else if d.month < 12 then Date(d.year, d.month + 1, 1)
    else Date(d.year + 1, 1, 1)
  }

  /** The weekday after `w`. */
  function NextDayOfWeek(w: DayOfWeek): DayOfWeek {
    match w
    case Monday => Tuesday
    case Tuesday => Wednesday
    case Wednesday => Thursday
    case Thursday => Friday
    case Friday => Saturday
    case Saturday => Sunday
    case Sunday => Monday
  }

  lemma DivSucc4(a: int)
    requires a >= 0
    ensures (a + 1) / 4 == a / 4 + if (a + 1) % 4 == 0 then 1 else 0
  {
  }

  lemma DivSucc100(a: int)
    requires a >= 0
    ensures (a + 1) / 100 == a / 100 + if (a + 1) % 100 == 0 then 1 else 0
  {
  }

  lemma DivSucc400(a: int)
    requires a >= 0
    ensures (a + 1) / 400 == a / 400 + if (a + 1) % 400 == 0 then 1 else 0
  {
  }

  // Divisibility by 4, 100 and 400 is unchanged by a shift of the divisor or a sign change.

  lemma Mod4Shift(year: int)
    ensures (year + 4) % 4 == year % 4
    ensures (-year) % 4 == 0 <==> year % 4 == 0
  {
  }

  lemma Mod100Shift(year: int)
    ensures (year + 100) % 100 == year % 100
    ensures (-year) % 100 == 0 <==> year % 100 == 0
  {
  }

  lemma Mod400Shift(year: int)
    ensures (year + 400) % 400 == year % 400
    ensures (-year) % 400 == 0 <==> year % 400 == 0
  {
  }

  /** Each year adds one leap day to the count exactly when it is a leap year. */
  lemma LeapDaysStep(year: int)
    ensures LeapDaysBefore(year + 1) == LeapDaysBefore(year) + if IsLeapYear(year) then 1 else 0
  {
    if year >= 0 {
      LeapDaysStepFromZero(year);
    } else if year < -1 {
      LeapDaysStepBelowZero(year);
    }
  }

  lemma LeapDaysStepFromZero(year: int)
    requires year >= 0
    ensures LeapDaysBefore(year + 1) == LeapDaysBefore(year) + if IsLeapYear(year) then 1 else 0
  {
    Quarter(year);
    Century(year);
    QuadCentury(year);
    LeapIndicator(year);
  }

  lemma Quarter(year: int)
    requires year >= 0
    ensures (year + 4) / 4 == (year + 3) / 4 + if year % 4 == 0 then 1 else 0
  {
    Mod4Shift(year);
    DivSucc4(year + 3);
  }

  lemma Century(year: int)
    requires year >= 0
    ensures (year + 100) / 100 == (year + 99) / 100 + if year % 100 == 0 then 1 else 0
  {
    Mod100Shift(year);
    DivSucc100(year + 99);
  }

  lemma QuadCentury(year: int)
    requires year >= 0
    ensures (year + 400) / 400 == (year + 399) / 400 + if year % 400 == 0 then 1 else 0
  {
    Mod400Shift(year);
    DivSucc400(year + 399);
  }

  /** The leap-year rule as inclusion-exclusion over the divisors 4, 100 and 400. */
  lemma LeapIndicator(year: int)
    ensures (if IsLeapYear(year) then 1 else 0)
         == (if year % 4 == 0 then 1 else 0) - (if year % 100 == 0 then 1 else 0) + (if year % 400 == 0 then 1 else 0)
  {
    if year % 400 == 0 {
      var k := year / 400;
      assert year == 100 * (4 * k) && year == 4 * (100 * k);
    } else if year % 100 == 0 {
      var k := year / 100;
      assert year == 4 * (25 * k);
    }
  }

  lemma LeapDaysStepBelowZero(year: int)
    requires year < -1
    ensures LeapDaysBefore(year + 1) == LeapDaysBefore(year) + if IsLeapYear(year) then 1 else 0
  {
    QuarterBelowZero(year);
    CenturyBelowZero(year);
    QuadCenturyBelowZero(year);
    LeapIndicator(year);
  }

  lemma QuarterBelowZero(year: int)
    requires year < -1
    ensures (-year) / 4 == (-year - 1) / 4 + if year % 4 == 0 then 1 else 0
  {
    Mod4Shift(year);
    DivSucc4(-year - 1);
  }

  lemma CenturyBelowZero(year: int)
    requires year < -1
    ensures (-year) / 100 == (-year - 1) / 100 + if year % 100 == 0 then 1 else 0
  {
    Mod100Shift(year);
    DivSucc100(-year - 1);
  }

  lemma QuadCenturyBelowZero(year: int)
    requires year < -1
    ensures (-year) / 400 == (-year - 1) / 400 + if year % 400 == 0 then 1 else 0
  {
    Mod400Shift(year);
    DivSucc400(-year - 1);
  }

  /**
   * The offset `(367 * m - 362) / 12` that `toEpochDay` uses counts a
   * 30-day February; from one month to the next it grows by the length
   * of the earlier month, February's correction aside.
   */
  lemma MonthOffsetStep(year: int, m: int)
    requires 1 <= m <= 11
    ensures (367 * (m + 1) - 362) / 12 - (367 * m - 362) / 12
         == if m == 2 then 30 else LengthOfMonth(year, m)
  {
  }

  /** The day count advances by one from each date to the next. */
  lemma {:induction false} NextDayEpochDay(d: LocalDate)
    ensures EpochDay(NextDay(d)) == EpochDay(d) + 1
  {
    if d.day < LengthOfMonth(d.year, d.month) {
    } else if d.month < 12 {
      MonthOffsetStep(d.year, d.month);
    } else {
      NewYearEpochDay(d.year);
    }
  }

  lemma NewYearEpochDay(year: int)
    ensures EpochDay(Date(year + 1, 1, 1)) == EpochDay(Date(year, 12, 31)) + 1
  {
    LeapDaysStep(year);
  }

  lemma WeekIndexStep(e: int)
    ensures (e + 4) % 7 == if (e + 3) % 7 == 6 then 0 else (e + 3) % 7 + 1
  {
  }

  /** Consecutive dates fall on consecutive days of the week. */
  lemma NextDayDayOfWeek(d: LocalDate)
    ensures DayOfWeekOf(NextDay(d)) == NextDayOfWeek(DayOfWeekOf(d))
  {
    NextDayEpochDay(d);
    WeekIndexStep(EpochDay(d));
  }

  /** The count starts at 1970-01-01, a Thursday. */
  lemma EpochAnchor()
    ensures EpochDay(Date(1970, 1, 1)) == 0 && DayOfWeekOf(Date(1970, 1, 1)) == Thursday
  {
  }
}
