/** Second-precision datetimes as Python's `datetime` holds them once the
    microseconds are zero, with Python's chronological comparison. */
module Dates {

  /** The six fields `strptime` fills for the layouts the tracker uses. */
  datatype DateTime = DateTime(year: nat, month: nat, day: nat, hour: nat, minute: nat, second: nat)

  predicate IsLeapYear(year: nat) {
    year % 4 == 0 && (year % 100 != 0 || year % 400 == 0)
  }

  /** Number of days of `month` (1..12) in `year`, Gregorian calendar. */
  function DaysInMonth(year: nat, month: nat): (n: nat)
    requires 1 <= month <= 12
    ensures 28 <= n <= 31
    ensures month == 2 <==> n < 30
    ensures n == 29 <==> month == 2 && IsLeapYear(year)
  {
    if month == 2 then (if IsLeapYear(year) then 29 else 28)
    else if month == 4 || month == 6 || month == 9 || month == 11 then 30
    else 31
  }

  /** The range checks of the `datetime` constructor: MINYEAR is 1, MAXYEAR is 9999. */
  predicate ValidDateTime(d: DateTime) {
    && 1 <= d.year <= 9999
    && 1 <= d.month <= 12
    && 1 <= d.day <= DaysInMonth(d.year, d.month)
    && d.hour < 24
    && d.minute < 60
    && d.second < 60
  }

  /** A value Python can hold in a `datetime` object. */
  type Timestamp = d: DateTime | ValidDateTime(d) witness DateTime(1900, 1, 1, 0, 0, 0)

  /** `datetime(1900, 1, 1)`, the default watermark. */
  const Epoch: Timestamp := DateTime(1900, 1, 1, 0, 0, 0)

  /** `a < b` on datetimes: lexicographic on (year, month, day, hour, minute, second). */
  predicate Before(a: DateTime, b: DateTime) {
    || a.year < b.year
    || (a.year == b.year && a.month < b.month)
    || (a.year == b.year && a.month == b.month && a.day < b.day)
    || (a.year == b.year && a.month == b.month && a.day == b.day && a.hour < b.hour)
    || (a.year == b.year && a.month == b.month && a.day == b.day && a.hour == b.hour
        && a.minute < b.minute)
    || (a.year == b.year && a.month == b.month && a.day == b.day && a.hour == b.hour
        && a.minute == b.minute && a.second < b.second)
  }

  /** `a <= b` on datetimes. */
  predicate NotAfter(a: DateTime, b: DateTime) {
    Before(a, b) || a == b
  }

  /** `max(a, b)`: the later of the two. */
  function Max(a: Timestamp, b: Timestamp): (m: Timestamp)
    ensures m == a || m == b
    ensures NotAfter(a, m) && NotAfter(b, m)
  {
    if Before(a, b) then b else a
  }

  lemma NotAfterTransitive(a: DateTime, b: DateTime, c: DateTime)
    requires NotAfter(a, b) && NotAfter(b, c)
    ensures NotAfter(a, c)
  {
  }

  /** Any two datetimes are comparable and exactly one of `<`, `==`, `>` holds. */
  lemma Trichotomy(a: DateTime, b: DateTime)
    ensures Before(a, b) || a == b || Before(b, a)
    ensures !(Before(a, b) && Before(b, a))
  {
  }
}
