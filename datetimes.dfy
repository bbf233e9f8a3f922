/** Naive `datetime.datetime` values as the parser builds them from a block's date and
    time fields: ordering, the constructor's range checks, subtraction, and the
    wrap-past-midnight time difference. */
module DateTimes {

  datatype DateTime = DateTime(year: int, month: int, day: int, hour: int, minute: int, second: int)

  /** `a < b` for datetimes: lexicographic on (year, month, day, hour, minute, second). */
  predicate Before(a: DateTime, b: DateTime) {
    if a.year != b.year then a.year < b.year
    else if a.month != b.month then a.month < b.month
    else if a.day != b.day then a.day < b.day
    else if a.hour != b.hour then a.hour < b.hour
    else if a.minute != b.minute then a.minute < b.minute
    else a.second < b.second
  }

  /** `Before` is a strict total order. */
  lemma BeforeOrder(a: DateTime, b: DateTime, c: DateTime)
    ensures !Before(a, a)
    ensures a == b || Before(a, b) || Before(b, a)
    ensures Before(a, b) && Before(b, c) ==> Before(a, c)
  {
  }

  /** `a <= b`. */
  predicate NotAfter(a: DateTime, b: DateTime) {
    a == b || Before(a, b)
  }

  const MinYear := 1
  const MaxYear := 9999
  const SecondsPerDay := 86400

  predicate IsLeap(year: int) {
    year % 4 == 0 && (year % 100 != 0 || year % 400 == 0)
  }

  function DaysInMonth(year: int, month: int): int
    requires 1 <= month <= 12
  {
    if month == 2 then (if IsLeap(year) then 29 else 28)
    else if month == 4 || month == 6 || month == 9 || month == 11 then 30
    else 31
  }

  function DaysInYear(year: int): int {
    if IsLeap(year) then 366 else 365
  }

  /** The checks `datetime(...)` makes before it builds a value (otherwise `ValueError`). */
  predicate Valid(t: DateTime) {
    && MinYear <= t.year <= MaxYear
    && 1 <= t.month <= 12
    && 1 <= t.day <= DaysInMonth(t.year, t.month)
    && 0 <= t.hour <= 23
    && 0 <= t.minute <= 59
    && 0 <= t.second <= 59
  }

  /** Days in the years before `year` (year 1 starts at 0), as in Python's datetime. */
  function DaysBeforeYear(year: int): int
    requires year >= 1
  {
    var y := year - 1;
    y * 365 + y / 4 - y / 100 + y / 400
  }

  function DaysBeforeMonth(year: int, month: int): int
    requires 1 <= month <= 12
  {
    [0, 31, 59, 90, 120, 151, 181, 212, 243, 273, 304, 334][month - 1]
      + (if month > 2 && IsLeap(year) then 1 else 0)
  }

  /** Proleptic Gregorian ordinal of the date (`date.toordinal()`; 0001-01-01 is 1). */
  function Ordinal(t: DateTime): int
    requires Valid(t)
  {
    DaysBeforeYear(t.year) + DaysBeforeMonth(t.year, t.month) + t.day
  }

  function TimeOfDay(t: DateTime): int {
    t.hour * 3600 + t.minute * 60 + t.second
  }

  /** The instant of `t` in seconds, on the same scale for every valid datetime. */
  function Seconds(t: DateTime): int
    requires Valid(t)
  {
    Ordinal(t) * SecondsPerDay + TimeOfDay(t)
  }

  /** `later - earlier` as a `timedelta`, in seconds: positive exactly when `later` comes
      after `earlier`, and zero exactly when they are the same datetime. */
  function Elapsed(earlier: DateTime, later: DateTime): (r: int)
    requires Valid(earlier) && Valid(later)
    ensures r > 0 <==> Before(earlier, later)
    ensures r == 0 <==> earlier == later
  {
    BeforeIsEarlier(earlier, later);
    Seconds(later) - Seconds(earlier)
  }

  /** Going from `year - 1` to `year`, each count of multiples grows when `year` is one. */
  lemma MultiplesStep(year: int)
    requires year >= 1
    ensures year / 4 == (year - 1) / 4 + (if year % 4 == 0 then 1 else 0)
    ensures year / 100 == (year - 1) / 100 + (if year % 100 == 0 then 1 else 0)
    ensures year / 400 == (year - 1) / 400 + (if year % 400 == 0 then 1 else 0)
  {
  }

  lemma Multiples(year: int)
    ensures year % 400 == 0 ==> year % 100 == 0
    ensures year % 100 == 0 ==> year % 4 == 0
  {
    if year % 400 == 0 { assert year == 400 * (year / 400); }
    if year % 100 == 0 { assert year == 100 * (year / 100); }
  }

  lemma {:induction false} DaysBeforeYearStep(year: int)
    requires year >= 1
    ensures DaysBeforeYear(year + 1) == DaysBeforeYear(year) + DaysInYear(year)
  {
    MultiplesStep(year);
    Multiples(year);
  }

  lemma {:induction false} DaysBeforeYearGrows(y1: int, y2: int)
    requires 1 <= y1 < y2
    ensures DaysBeforeYear(y1) + DaysInYear(y1) <= DaysBeforeYear(y2)
    decreases y2 - y1
  {
    DaysBeforeYearStep(y1);
    if y1 + 1 < y2 {
      DaysBeforeYearGrows(y1 + 1, y2);
    }
  }

  lemma MonthFitsYear(year: int, m1: int, m2: int)
    requires 1 <= m1 <= 12 && 1 <= m2 <= 12
    ensures DaysBeforeMonth(year, m1) + DaysInMonth(year, m1) <= DaysInYear(year)
    ensures m1 < m2 ==> DaysBeforeMonth(year, m1) + DaysInMonth(year, m1) <= DaysBeforeMonth(year, m2)
  {
  }

  /** An earlier day is an earlier instant, whatever the times of day. */
  lemma EarlierDay(x: DateTime, y: DateTime)
    requires Valid(x) && Valid(y) && Ordinal(x) < Ordinal(y)
    ensures Seconds(x) < Seconds(y)
  {
    var ox, oy := Ordinal(x), Ordinal(y);
    assert (oy - ox) * 86400 >= 86400;
    assert Seconds(y) - Seconds(x) == (oy - ox) * 86400 + TimeOfDay(y) - TimeOfDay(x);
  }

  /** On the same day, the lexicographic order of the times is the order of instants. */
  lemma SameDay(a: DateTime, b: DateTime)
    requires Valid(a) && Valid(b) && a.year == b.year && a.month == b.month && a.day == b.day
    ensures Before(a, b) <==> Seconds(a) < Seconds(b)
    ensures a == b <==> Seconds(a) == Seconds(b)
  {
    assert Seconds(b) - Seconds(a) == TimeOfDay(b) - TimeOfDay(a);
  }

  /** A date in an earlier year, month or day is an earlier instant. */
  lemma EarlierDate(x: DateTime, y: DateTime)
    requires Valid(x) && Valid(y)
    requires x.year < y.year || (x.year == y.year && (x.month < y.month || (x.month == y.month && x.day < y.day)))
    ensures Seconds(x) < Seconds(y)
  {
    if x.year < y.year {
      DaysBeforeYearGrows(x.year, y.year);
      MonthFitsYear(x.year, x.month, 1);
    } else if x.month < y.month {
      MonthFitsYear(x.year, x.month, y.month);
    }
    EarlierDay(x, y);
  }

  /** For valid datetimes the lexicographic order is the order of instants. */
  lemma BeforeIsEarlier(a: DateTime, b: DateTime)
    requires Valid(a) && Valid(b)
    ensures Before(a, b) <==> Seconds(a) < Seconds(b)
    ensures a == b <==> Seconds(a) == Seconds(b)
  {
    if a.year == b.year && a.month == b.month && a.day == b.day {
      SameDay(a, b);
    } else if a.year < b.year || (a.year == b.year && (a.month < b.month || (a.month == b.month && a.day < b.day))) {
      EarlierDate(a, b);
    } else {
      EarlierDate(b, a);
    }
  }

  /** `calculate_time_delta`: the time of day `current` minus `last`, taken across
      midnight when `current` is earlier in the day. */
  function TimeDelta(current: DateTime, last: DateTime): (d: int)
    requires 0 <= TimeOfDay(current) < SecondsPerDay && 0 <= TimeOfDay(last) < SecondsPerDay
    ensures 0 <= d < SecondsPerDay
    ensures (TimeOfDay(last) + d) % SecondsPerDay == TimeOfDay(current)
  {
    var c, l := TimeOfDay(current), TimeOfDay(last);
    if c < l then c + SecondsPerDay - l else c - l
  }
}
