/** The part of Python's naive datetime that the command handlers rely on,
    with a point in time represented as a count of microseconds since
    1970-01-01 00:00 (local time, taken to be UTC): the validation done by
    the constructor datetime(year, month, day, hour, minute), the conversion
    of such a value to a time, and replace(hour, minute, second=0,
    microsecond=0) followed by adding one day. */
module Calendar {

  const MicrosPerMinute: int := 60_000_000
  const MicrosPerHour: int := 3_600_000_000
  const MicrosPerDay: int := 86_400_000_000

  /** date(1970, 1, 1).toordinal(): the proleptic Gregorian ordinal of the epoch. */
  const EpochOrdinal: int := 719163

  /** The fields the handler passes to datetime(...); seconds and microseconds are zero. */
  datatype DateTime = DateTime(year: int, month: int, day: int, hour: int, minute: int)

  predicate IsLeapYear(y: int) {
    y % 4 == 0 && (y % 100 != 0 || y % 400 == 0)
  }

  function DaysInYear(y: int): int {
    if IsLeapYear(y) then 366 else 365
  }

  function DaysInMonth(y: int, m: int): (n: int)
    requires 1 <= m <= 12
    ensures 28 <= n <= 31
  {
    if m == 2 then (if IsLeapYear(y) then 29 else 28)
    else if m == 4 || m == 6 || m == 9 || m == 11 then 30
    else 31
  }

  /** What datetime(year, month, day, hour, minute) accepts without raising ValueError. */
  predicate IsValidDateTime(dt: DateTime) {
    && 1 <= dt.year <= 9999
    && 1 <= dt.month <= 12
    && 1 <= dt.day <= DaysInMonth(dt.year, dt.month)
    && 0 <= dt.hour <= 23
    && 0 <= dt.minute <= 59
  }

  /** Days in the years 1 .. y-1. */
  function DaysBeforeYear(y: int): int
    requires y >= 1
  {
    var p := y - 1;
    p * 365 + p / 4 - p / 100 + p / 400
  }

  /** Days in the months 1 .. m-1 of year y. */
  function DaysBeforeMonth(y: int, m: int): (n: int)
    requires 1 <= m <= 13
    ensures 28 * (m - 1) <= n <= 31 * (m - 1)
  {
    if m == 1 then 0 else DaysBeforeMonth(y, m - 1) + DaysInMonth(y, m - 1)
  }

  /** date(year, month, day).toordinal(). */
  function Ordinal(dt: DateTime): int
    requires IsValidDateTime(dt)
  {
    DaysBeforeYear(dt.year) + DaysBeforeMonth(dt.year, dt.month) + dt.day
  }

  /** The point in time a valid datetime(...) stands for. */
  function ToTime(dt: DateTime): int
    requires IsValidDateTime(dt)
  {
    (Ordinal(dt) - EpochOrdinal) * MicrosPerDay + dt.hour * MicrosPerHour + dt.minute * MicrosPerMinute
  }

  /** What the argument parser of datetime(...) accepts for an int field: a C
      int. A larger field raises OverflowError before any range check. */
  predicate FitsCInt(n: int) {
    -0x8000_0000 <= n < 0x8000_0000
  }

  predicate FieldsFitCInt(dt: DateTime) {
    FitsCInt(dt.year) && FitsCInt(dt.month) && FitsCInt(dt.day) && FitsCInt(dt.hour) && FitsCInt(dt.minute)
  }

  /** date(9999, 12, 31).toordinal(). */
  const MaxOrdinal: int := 3652059

  /** datetime.min and datetime.max as times: adding a timedelta whose result
      falls outside them raises OverflowError. */
  const MinTime: int := (1 - EpochOrdinal) * MicrosPerDay
  const MaxTime: int := (MaxOrdinal + 1 - EpochOrdinal) * MicrosPerDay - 1

  predicate InDatetimeRange(t: int) {
    MinTime <= t <= MaxTime
  }

  /** Strict lexicographic order on (year, month, day, hour, minute): the order
      Python compares two datetimes in. */
  predicate Before(a: DateTime, b: DateTime) {
    || a.year < b.year
    || (a.year == b.year && a.month < b.month)
    || (a.year == b.year && a.month == b.month && a.day < b.day)
    || (a.year == b.year && a.month == b.month && a.day == b.day && a.hour < b.hour)
    || (a.year == b.year && a.month == b.month && a.day == b.day && a.hour == b.hour && a.minute < b.minute)
  }

  lemma NextYearStart(y: int)
    requires y >= 1
    ensures DaysBeforeYear(y + 1) == DaysBeforeYear(y) + DaysInYear(y)
  {
    var p := y - 1;
    DivStep(p, 4);
    DivStep(p, 100);
    DivStep(p, 400);
    var c4 := if y % 4 == 0 then 1 else 0;
    var c100 := if y % 100 == 0 then 1 else 0;
    var c400 := if y % 400 == 0 then 1 else 0;
    assert DaysBeforeYear(y + 1) == DaysBeforeYear(y) + 365 + c4 - c100 + c400;
    LeapRuleNested(y);
  }

  /** A multiple of 400 is a multiple of 100, which is a multiple of 4. */
  lemma LeapRuleNested(y: int)
    ensures y % 400 == 0 ==> y % 100 == 0
    ensures y % 100 == 0 ==> y % 4 == 0
  {
    if y % 400 == 0 {
      DivUnique(y, 100, (y / 400) * 4, 0);
    }
    if y % 100 == 0 {
      DivUnique(y, 4, (y / 100) * 25, 0);
    }
  }

  lemma DivStep(p: int, k: int)
    requires p >= 0 && k > 0
    ensures (p + 1) / k == p / k + (if (p + 1) % k == 0 then 1 else 0)
  {
    var q, r := p / k, p % k;
    assert p == q * k + r && 0 <= r < k;
    if r + 1 < k {
      assert p + 1 == q * k + (r + 1);
      DivUnique(p + 1, k, q, r + 1);
    } else {
      assert p + 1 == (q + 1) * k;
      DivUnique(p + 1, k, q + 1, 0);
    }
  }

  lemma DivUnique(a: int, k: int, q: int, r: int)
    requires k > 0 && 0 <= r < k && a == q * k + r
    ensures a / k == q && a % k == r
  {
    var d := a / k - q;
    assert d * k == r - a % k;
    MulSign(d, k);
  }

  lemma MulSign(d: int, k: int)
    requires k > 0
    ensures d >= 1 ==> d * k >= k
    ensures d <= -1 ==> d * k <= -k
    decreases if d >= 0 then d else -d
  {
    if d >= 1 {
      assert d * k == (d - 1) * k + k;
      MulSign(d - 1, k);
    } else if d <= -1 {
      assert d * k == (d + 1) * k - k;
      MulSign(d + 1, k);
    }
  }

  lemma {:induction false} DaysBeforeYearGrows(y1: int, y2: int)
    requires 1 <= y1 < y2
    ensures DaysBeforeYear(y1) + DaysInYear(y1) <= DaysBeforeYear(y2)
    decreases y2 - y1
  {
    NextYearStart(y1);
    if y1 + 1 < y2 {
      DaysBeforeYearGrows(y1 + 1, y2);
    }
  }

  lemma {:induction false} DaysBeforeMonthGrows(y: int, m1: int, m2: int)
    requires 1 <= m1 < m2 <= 13
    ensures DaysBeforeMonth(y, m1) + DaysInMonth(y, m1) <= DaysBeforeMonth(y, m2)
    decreases m2 - m1
  {
    if m1 + 1 < m2 {
      DaysBeforeMonthGrows(y, m1 + 1, m2);
    }
  }

  lemma YearLength(y: int)
    ensures DaysBeforeMonth(y, 13) == DaysInYear(y)
  {
    var leap := if IsLeapYear(y) then 1 else 0;
    assert DaysBeforeMonth(y, 2) == 31;
    assert DaysBeforeMonth(y, 3) == 59 + leap;
    assert DaysBeforeMonth(y, 4) == 90 + leap;
    assert DaysBeforeMonth(y, 5) == 120 + leap;
    assert DaysBeforeMonth(y, 6) == 151 + leap;
    assert DaysBeforeMonth(y, 7) == 181 + leap;
    assert DaysBeforeMonth(y, 8) == 212 + leap;
    assert DaysBeforeMonth(y, 9) == 243 + leap;
    assert DaysBeforeMonth(y, 10) == 273 + leap;
    assert DaysBeforeMonth(y, 11) == 304 + leap;
    assert DaysBeforeMonth(y, 12) == 334 + leap;
    assert DaysBeforeMonth(y, 13) == 365 + leap;
  }

  /** A valid date lies within its year: after the days of the earlier years,
      at most at the last day of its own year. */
  lemma OrdinalWithinYear(dt: DateTime)
    requires IsValidDateTime(dt)
    ensures DaysBeforeYear(dt.year) < Ordinal(dt) <= DaysBeforeYear(dt.year) + DaysInYear(dt.year)
  {
    YearLength(dt.year);
    if dt.month < 12 {
      DaysBeforeMonthGrows(dt.year, dt.month, 13);
    }
  }

  lemma OrdinalOrder(a: DateTime, b: DateTime)
    requires IsValidDateTime(a) && IsValidDateTime(b)
    requires Before(a, b)
    ensures Ordinal(a) < Ordinal(b) || (Ordinal(a) == Ordinal(b) && (a.year, a.month, a.day) == (b.year, b.month, b.day))
  {
    if a.year < b.year {
      OrdinalWithinYear(a);
      OrdinalWithinYear(b);
      DaysBeforeYearGrows(a.year, b.year);
    } else if a.month < b.month {
      DaysBeforeMonthGrows(a.year, a.month, b.month);
    }
  }

  /** Converting to a time keeps the order of datetimes: an earlier datetime
      gets a smaller time. */
  lemma ToTimeIncreasing(a: DateTime, b: DateTime)
    requires IsValidDateTime(a) && IsValidDateTime(b)
    requires Before(a, b)
    ensures ToTime(a) < ToTime(b)
  {
    OrdinalOrder(a, b);
    var da, db := Ordinal(a) - EpochOrdinal, Ordinal(b) - EpochOrdinal;
    if da < db {
      assert da * MicrosPerDay + MicrosPerDay <= db * MicrosPerDay;
    }
  }

  /** The comparison `remind_time <= now` between two datetimes is the comparison
      of their times, in both directions; in particular distinct valid datetimes
      have distinct times. */
  lemma ToTimeOrderIff(a: DateTime, b: DateTime)
    requires IsValidDateTime(a) && IsValidDateTime(b)
    ensures Before(a, b) <==> ToTime(a) < ToTime(b)
    ensures a == b <==> ToTime(a) == ToTime(b)
  {
    if Before(a, b) {
      ToTimeIncreasing(a, b);
    } else if Before(b, a) {
      ToTimeIncreasing(b, a);
    }
  }

  /** Every valid datetime(...) lies between datetime.min and datetime.max, and
      its fields fit the C int the constructor parses them into. */
  lemma ToTimeInRange(dt: DateTime)
    requires IsValidDateTime(dt)
    ensures InDatetimeRange(ToTime(dt)) && FieldsFitCInt(dt)
  {
    OrdinalWithinYear(dt);
    DaysBeforeYearGrows(dt.year, 10000);
    if dt.year > 1 {
      DaysBeforeYearGrows(1, dt.year);
    }
  }

  /** The check `remind_time <= now`, where now carries seconds and microseconds:
      with nowDt the minute now falls in and sub the microseconds past it, the
      time comparison holds exactly when nowDt is not before remind_time as a
      datetime, since a valid datetime's time is a whole number of minutes. */
  lemma PastCheckIsDatetimeOrder(dt: DateTime, nowDt: DateTime, sub: int)
    requires IsValidDateTime(dt) && IsValidDateTime(nowDt) && 0 <= sub < MicrosPerMinute
    ensures ToTime(dt) <= ToTime(nowDt) + sub <==> !Before(nowDt, dt)
  {
    ToTimeOrderIff(nowDt, dt);
    var a := (Ordinal(dt) - EpochOrdinal) * 1440 + dt.hour * 60 + dt.minute;
    var b := (Ordinal(nowDt) - EpochOrdinal) * 1440 + nowDt.hour * 60 + nowDt.minute;
    assert ToTime(dt) == a * MicrosPerMinute;
    assert ToTime(nowDt) == b * MicrosPerMinute;
    if b < a {
      assert (b + 1) * MicrosPerMinute <= a * MicrosPerMinute;
    }
  }

  /** now.replace(hour=hour, minute=minute, second=0, microsecond=0) + timedelta(days=1):
      the given hour:minute on the day after now's day. replace raises ValueError
      outside these ranges, which the caller checks first. */
  function NextDailyTime(now: int, hour: int, minute: int): int
    requires 0 <= hour <= 23 && 0 <= minute <= 59
  {
    (now / MicrosPerDay) * MicrosPerDay + hour * MicrosPerHour + minute * MicrosPerMinute + MicrosPerDay
  }

  /** The stored time falls on the day after now's day, exactly at hour:minute
      with zero seconds, and so is always later than now. */
  lemma NextDailyTimeIsTomorrow(now: int, hour: int, minute: int)
    requires 0 <= hour <= 23 && 0 <= minute <= 59
    ensures NextDailyTime(now, hour, minute) / MicrosPerDay == now / MicrosPerDay + 1
    ensures NextDailyTime(now, hour, minute) % MicrosPerDay == hour * MicrosPerHour + minute * MicrosPerMinute
    ensures now < NextDailyTime(now, hour, minute) < now + 2 * MicrosPerDay
  {
    var tod := hour * MicrosPerHour + minute * MicrosPerMinute;
    DivUnique(NextDailyTime(now, hour, minute), MicrosPerDay, now / MicrosPerDay + 1, tod);
  }

  /** When the daily job fires on the day of the stored time, at or after it,
      the new stored time is exactly one day after the old one. */
  lemma NextDailyTimeAdvancesOneDay(stored: int, now: int, hour: int, minute: int)
    requires 0 <= hour <= 23 && 0 <= minute <= 59
    requires stored % MicrosPerDay == hour * MicrosPerHour + minute * MicrosPerMinute
    requires stored <= now && now / MicrosPerDay == stored / MicrosPerDay
    ensures NextDailyTime(now, hour, minute) == stored + MicrosPerDay
  {
  }

  /** Firing at the very time the handler stored moves it on by one day. */
  lemma DailyTimesAreOneDayApart(now: int, hour: int, minute: int)
    requires 0 <= hour <= 23 && 0 <= minute <= 59
    ensures NextDailyTime(NextDailyTime(now, hour, minute), hour, minute) == NextDailyTime(now, hour, minute) + MicrosPerDay
  {
    NextDailyTimeIsTomorrow(now, hour, minute);
  }
}
