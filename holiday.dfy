/**
 * The service's records: a holiday, whose identity is its date alone,
 * and a per-country count.
 */
module HolidayModel {
  import opened Calendar

  /**
   * A public holiday. The date is never missing: the repository drops
   * holidays without one before the service sees them.
   */
  datatype Holiday = Holiday(date: LocalDate, localName: string)

  /** One country's number of holidays that fall on a weekday. */
  datatype CountryHolidayCount = CountryHolidayCount(countryCode: string, count: int)

  /** What `Holiday.equals(Object o)` can be handed. */
  datatype Obj = Null | HolidayObj(holiday: Holiday) | OtherObj

  /** `Holiday.equals`: another `Holiday` with the same date; `localName` is ignored. */
  predicate Equals(self: Holiday, o: Obj) {
    match o
    case HolidayObj(other) => self.date == other.date
    case _ => false
  }

  /** `LocalDate.hashCode`, in 32-bit two's complement arithmetic. */
  function DateHashCode(d: LocalDate): bv32 {
    var year := (d.year % 0x1_0000_0000) as bv32;
    var month := d.month as bv32;
    var day := d.day as bv32;
    (year & 0xFFFF_F800) ^ ((year << 11) + (month << 6) + day)
  }

  /** `Holiday.hashCode`: `Objects.hashCode(date)`. */
  function HashCode(h: Holiday): bv32 {
    DateHashCode(h.date)
  }

  lemma EqualsIffSameDate(a: Holiday, b: Holiday)
    ensures Equals(a, HolidayObj(b)) <==> a.date == b.date
  {
  }

  lemma EqualsIgnoresLocalName(date: LocalDate, name1: string, name2: string)
    ensures Equals(Holiday(date, name1), HolidayObj(Holiday(date, name2)))
  {
  }

  lemma NeverEqualsNullOrOtherClass(h: Holiday)
    ensures !Equals(h, Null) && !Equals(h, OtherObj)
  {
  }

  lemma EqualsIsEquivalence(a: Holiday, b: Holiday, c: Holiday)
    ensures Equals(a, HolidayObj(a))
    ensures Equals(a, HolidayObj(b)) ==> Equals(b, HolidayObj(a))
    ensures Equals(a, HolidayObj(b)) && Equals(b, HolidayObj(c)) ==> Equals(a, HolidayObj(c))
  {
  }

  /** Equal holidays hash alike, which is what lets a HashSet find them. */
  lemma HashCodeConsistent(a: Holiday, b: Holiday)
    requires Equals(a, HolidayObj(b))
    ensures HashCode(a) == HashCode(b)
  {
  }
}
