/** Room's conversion between a `Date` and the millisecond column that stores it. */
module DateTimeConverter {

  /** Kotlin's `Long`. */
  type Long = x: int | -0x8000_0000_0000_0000 <= x < 0x8000_0000_0000_0000

  /** `java.util.Date`: a point in time given by its millisecond value. */
  datatype Date = Date(time: Long)

  function DateTimeToLong(value: Date): (millis: Long)
    ensures LongToDateTime(millis) == value
  {
    value.time
  }

  function LongToDateTime(value: Long): (date: Date)
    ensures date.time == value
  {
    Date(value)
  }

  /** Round trip from the column value. */
  lemma LongRoundTrip(n: Long)
    ensures DateTimeToLong(LongToDateTime(n)) == n
  {
  }

  /** Round trip from the date. */
  lemma DateRoundTrip(d: Date)
    ensures LongToDateTime(DateTimeToLong(d)) == d
  {
  }
}
