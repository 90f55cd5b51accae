/** System.DateTime reduced to what the time-expression resolver uses: whole seconds since
    0001-01-01T00:00:00 in the proleptic Gregorian calendar, up to 9999-12-31T23:59:59;
    the Add operations that throw when their result leaves that range; calendar month
    stepping; and conversion between local time and UTC under a fixed offset. */
module Calendar {
  import opened Wrappers

  const SecondsPerDay: int := 86400
  /** Days from 0001-01-01 to 10000-01-01. */
  const DaysTo10000: int := 3652059
  const MaxSecond: int := DaysTo10000 * SecondsPerDay - 1

  /** A DateTime value, in whole seconds; 0 is DateTime.MinValue. */
  type Instant = t: int | 0 <= t <= MaxSecond
  /** A date of the calendar, as days since 0001-01-01. */
  type Day = d: int | 0 <= d < DaysTo10000

  datatype Date = Date(year: int, month: int, day: int)

  predicate IsLeapYear(y: int) {
    y % 4 == 0 && (y % 100 != 0 || y % 400 == 0)
  }

  function DaysInYear(y: int): int {
    if IsLeapYear(y) then 366 else 365
  }

  function DaysInMonth(y: int, m: int): int
    requires 1 <= m <= 12
  {
    if m == 2 then (if IsLeapYear(y) then 29 else 28)
    else if m == 4 || m == 6 || m == 9 || m == 11 then 30
    else 31
  }

  /** Days of year y before the first of month m; m == 13 gives the whole year. */
  function DaysBeforeMonth(y: int, m: int): int
    requires 1 <= m <= 13
  {
    [0, 31, 59, 90, 120, 151, 181, 212, 243, 273, 304, 334, 365][m - 1]
      + (if IsLeapYear(y) && m > 2 then 1 else 0)
  }

  /** Days from 0001-01-01 to the first of January of year y. */
  function DaysBeforeYear(y: int): int
    requires y >= 1
  {
    var p := y - 1;
    365 * p + p / 4 - p / 100 + p / 400
  }

  predicate ValidDate(d: Date) {
    1 <= d.year <= 9999 && 1 <= d.month <= 12 && 1 <= d.day <= DaysInMonth(d.year, d.month)
  }

  /** Months since January of year 0, so that consecutive months differ by one. */
  function MonthIndex(d: Date): int {
    12 * d.year + d.month - 1
  }

  lemma MonthStep(y: int, m: int)
    requires 1 <= m <= 12
    ensures DaysBeforeMonth(y, m + 1) == DaysBeforeMonth(y, m) + DaysInMonth(y, m)
  {
  }

  lemma YearStep(y: int)
    requires y >= 1
    ensures DaysBeforeYear(y + 1) == DaysBeforeYear(y) + DaysInYear(y)
  {
    var p := y - 1;
    DivStep(p, 4);
    DivStep(p, 100);
    DivStep(p, 400);
  }

  /** One more unit adds one to the quotient exactly when it completes a multiple of n. */
  lemma DivStep(p: int, n: int)
    requires n > 0
    ensures (p + 1) / n == p / n + (if (p + 1) % n == 0 then 1 else 0)
  {
    var q := p / n;
    var r := p % n;
    if r + 1 == n {
      assert p + 1 == (q + 1) * n;
      DivUnique(p + 1, n, q + 1, 0);
    } else {
      assert p + 1 == q * n + (r + 1);
      DivUnique(p + 1, n, q, r + 1);
    }
  }

  lemma DivUnique(x: int, n: int, q: int, r: int)
    requires n > 0 && 0 <= r < n && x == q * n + r
    ensures x / n == q && x % n == r
  {
    var q' := x / n;
    var r' := x % n;
    assert x == q' * n + r';
    assert (q - q') * n == r' - r;
    if q > q' {
      MulAtLeast(q - q', n);
    } else if q < q' {
      assert (q' - q) * n == r - r';
      MulAtLeast(q' - q, n);
    }
  }

  lemma {:induction false} MulAtLeast(a: int, n: int)
    requires a >= 1 && n > 0
    ensures a * n >= n
    decreases a
  {
    if a > 1 {
      MulAtLeast(a - 1, n);
      assert a * n == (a - 1) * n + n;
    }
  }

  /** Later years start later: by at least 365 days per year. */
  lemma {:induction false} YearOrder(a: int, b: int)
    requires 1 <= a <= b
    ensures DaysBeforeYear(a) + 365 * (b - a) <= DaysBeforeYear(b)
    decreases b - a
  {
    if a < b {
      YearOrder(a, b - 1);
      YearStep(b - 1);
    }
  }

  /** A valid date falls inside its own year, and inside the calendar. */
  lemma DayInYear(d: Date)
    requires ValidDate(d)
    ensures DaysBeforeYear(d.year) <= DaysBeforeYear(d.year) + DaysBeforeMonth(d.year, d.month) + d.day - 1
    ensures DaysBeforeYear(d.year) + DaysBeforeMonth(d.year, d.month) + d.day - 1 < DaysBeforeYear(d.year + 1)
    ensures DaysBeforeYear(d.year + 1) <= DaysTo10000
  {
    MonthStep(d.year, d.month);
    YearStep(d.year);
    YearOrder(d.year + 1, 10000);
  }

  /** The day number of a valid date (DateTime.DateToTicks, in days). */
  function DayNumber(d: Date): Day
    requires ValidDate(d)
  {
    DayInYear(d);
    DaysBeforeYear(d.year) + DaysBeforeMonth(d.year, d.month) + d.day - 1
  }

  /** The year that holds day n, searched upwards from year y. */
  function YearOf(n: Day, y: int): (r: int)
    requires 1 <= y <= 9999 && DaysBeforeYear(y) <= n
    ensures y <= r <= 9999 && DaysBeforeYear(r) <= n < DaysBeforeYear(r + 1)
    decreases 9999 - y
  {
    if n < DaysBeforeYear(y + 1) then y else YearOf(n, y + 1)
  }

  /** The month of year y that holds day-of-year doy, searched upwards from month m. */
  function MonthOf(y: int, doy: int, m: int): (r: int)
    requires 1 <= m <= 12 && DaysBeforeMonth(y, m) <= doy < DaysInYear(y)
    ensures m <= r <= 12 && DaysBeforeMonth(y, r) <= doy < DaysBeforeMonth(y, r + 1)
    decreases 12 - m
  {
    if doy < DaysBeforeMonth(y, m + 1) then m else MonthOf(y, doy, m + 1)
  }

  /** The calendar date of day n (DateTime.GetDatePart): a valid date whose day number is n. */
  function DatePart(n: Day): (d: Date)
    ensures ValidDate(d) && DayNumber(d) == n
  {
    var y := YearOf(n, 1);
    YearStep(y);
    var doy := n - DaysBeforeYear(y);
    var m := MonthOf(y, doy, 1);
    MonthStep(y, m);
    Date(y, m, doy - DaysBeforeMonth(y, m) + 1)
  }

  /** Day numbers are unique: the date of a date's day number is that date. */
  lemma DatePartOfDayNumber(d: Date)
    requires ValidDate(d)
    ensures DatePart(DayNumber(d)) == d
  {
    var e := DatePart(DayNumber(d));
    if MonthIndex(e) < MonthIndex(d) {
      DayNumberOrder(e, d);
    } else if MonthIndex(d) < MonthIndex(e) {
      DayNumberOrder(d, e);
    }
    assert e.year == d.year && e.month == d.month;
  }

  /** A date of an earlier month has a smaller day number than any date of a later month. */
  lemma DayNumberOrder(a: Date, b: Date)
    requires ValidDate(a) && ValidDate(b) && MonthIndex(a) < MonthIndex(b)
    ensures DayNumber(a) < DayNumber(b)
  {
    if a.year < b.year {
      DayNumberOrderYears(a, b);
    } else {
      DayNumberOrderMonths(a, b);
    }
  }

  lemma DayNumberOrderYears(a: Date, b: Date)
    requires ValidDate(a) && ValidDate(b) && a.year < b.year
    ensures DayNumber(a) < DayNumber(b)
  {
    DayInYear(a);
    DayInYear(b);
    YearOrder(a.year + 1, b.year);
    var ya := DaysBeforeYear(a.year + 1);
    var yb := DaysBeforeYear(b.year);
    assert DayNumber(a) < ya && ya <= yb && yb <= DayNumber(b);
  }

  lemma DayNumberOrderMonths(a: Date, b: Date)
    requires ValidDate(a) && ValidDate(b) && a.year == b.year && a.month < b.month
    ensures DayNumber(a) < DayNumber(b)
  {
    MonthStep(a.year, a.month);
    MonthsBeforeOrder(a.year, a.month + 1, b.month);
    var y := DaysBeforeYear(a.year);
    var ma := DaysBeforeMonth(a.year, a.month);
    var mb := DaysBeforeMonth(b.year, b.month);
    assert DayNumber(a) == y + ma + a.day - 1 && DayNumber(b) == y + mb + b.day - 1;
    assert ma + DaysInMonth(a.year, a.month) <= mb;
  }

  lemma MonthsBeforeOrder(y: int, m1: int, m2: int)
    requires 1 <= m1 <= m2 <= 12
    ensures DaysBeforeMonth(y, m1) <= DaysBeforeMonth(y, m2)
  {
  }

  // ---------------------------------------------------------------- instants

  function DayOf(t: Instant): Day {
    t / SecondsPerDay
  }

  function TimeOfDay(t: Instant): int {
    t % SecondsPerDay
  }

  function Clamp(x: int): Instant {
    if x < 0 then 0 else if x > MaxSecond then MaxSecond else x
  }

  /** DateTime.ToUniversalTime() of a local or unspecified value under a fixed UTC offset
      (local = UTC + offset). The conversion never throws: a result beyond the calendar
      becomes DateTime.MinValue or DateTime.MaxValue. */
  function ToUniversal(local: Instant, offset: int): Instant {
    Clamp(local - offset)
  }

  /** DateTime.ToLocalTime() of a UTC value, clamped in the same way. */
  function ToLocal(utc: Instant, offset: int): Instant {
    Clamp(utc + offset)
  }

  /** Both conversions preserve order. */
  lemma ConversionsMonotone(a: Instant, b: Instant, offset: int)
    requires a <= b
    ensures ToUniversal(a, offset) <= ToUniversal(b, offset)
    ensures ToLocal(a, offset) <= ToLocal(b, offset)
  {
  }

  /** Converting to UTC and back is the identity unless the first conversion was clamped. */
  lemma ToLocalUndoesToUniversal(local: Instant, offset: int)
    requires 0 <= local - offset <= MaxSecond
    ensures ToLocal(ToUniversal(local, offset), offset) == local
  {
  }

  /** DateTime.AddSeconds (and AddMinutes, AddHours, AddDays after scaling): the
      result, or None where .NET throws ArgumentOutOfRangeException. */
  function AddSeconds(t: Instant, seconds: int): Option<Instant> {
    if 0 <= t + seconds <= MaxSecond then Some(t + seconds) else None
  }

  function AddMinutes(t: Instant, minutes: int): Option<Instant> {
    AddSeconds(t, minutes * 60)
  }

  function AddHours(t: Instant, hours: int): Option<Instant> {
    AddSeconds(t, hours * 3600)
  }

  function AddDays(t: Instant, days: int): Option<Instant> {
    AddSeconds(t, days * SecondsPerDay)
  }

  /** C#'s integer division and remainder, which truncate toward zero. */
  function CsDiv(a: int, b: int): int
    requires b > 0
  {
    if a >= 0 then a / b else -((-a) / b)
  }

  function CsRem(a: int, b: int): int
    requires b > 0
  {
    a - b * CsDiv(a, b)
  }

  /** The year and month that DateTime.AddMonths computes from the zero-based month
      offset i, in its two branches for non-negative and negative i. */
  function StepYearMonth(year: int, i: int): (int, int) {
    if i >= 0 then (year + CsDiv(i, 12), CsRem(i, 12) + 1)
    else (year + CsDiv(i - 11, 12), 12 + CsRem(i + 1, 12))
  }

  /** The two branches together are floor division: month index year * 12 + i. */
  lemma StepYearMonthIsFloor(year: int, i: int)
    ensures StepYearMonth(year, i) == (year + i / 12, i % 12 + 1)
  {
  }

  function Min(a: int, b: int): int {
    if a <= b then a else b
  }

  /** DateTime.AddMonths(months): steps the calendar month, clamps the day to the length of
      the target month and keeps the time of day; None where .NET throws (|months| over
      120000, or a target year outside 1..9999). */
  function AddMonths(t: Instant, months: int): Option<Instant> {
    MonthsFrom(DatePart(DayOf(t)), TimeOfDay(t), months)
  }

  /** AddMonths on the date and the time of day of an instant. */
  function MonthsFrom(d: Date, tod: int, months: int): Option<Instant>
    requires ValidDate(d) && 0 <= tod < SecondsPerDay
  {
    if months < -120000 || months > 120000 then None
    else if !InCalendar(d, months) then None
    else Some(DayNumber(Landing(d, months)) * SecondsPerDay + tod)
  }

  /** The year of the target month lies in 1..9999. */
  predicate InCalendar(d: Date, months: int) {
    var i := d.month - 1 + months;
    1 <= d.year + i / 12 <= 9999
  }

  /** The target date: the year and month of .NET's two branches (StepYearMonth) as one
      floor division, with the day of d or the last day of a shorter month. */
  function Landing(d: Date, months: int): (c: Date)
    requires ValidDate(d) && InCalendar(d, months)
    ensures ValidDate(c)
  {
    var i := d.month - 1 + months;
    var y := d.year + i / 12;
    var m := i % 12 + 1;
    Date(y, m, Min(d.day, DaysInMonth(y, m)))
  }

  /** The target date is `months` months from d, on d's day or a shorter month's last. */
  lemma LandingMonth(d: Date, months: int)
    requires ValidDate(d) && InCalendar(d, months)
    ensures var e := Landing(d, months);
      MonthIndex(e) == MonthIndex(d) + months && e.day == Min(d.day, DaysInMonth(e.year, e.month))
  {
    var i := d.month - 1 + months;
    assert 12 * (i / 12) + i % 12 == i;
  }

  /** What AddMonths means: the result lies exactly `months` calendar months away, on the
      same day of the month or the last day of a shorter month, at the same time of day;
      it fails exactly when the target month leaves the calendar or |months| > 120000. */
  lemma AddMonthsSteps(t: Instant, months: int)
    ensures var d := DatePart(DayOf(t));
      var target := MonthIndex(d) + months;
      AddMonths(t, months).None? <==>
        months < -120000 || months > 120000 || target < 12 || target >= 12 * 10000
    ensures AddMonths(t, months).Some? ==>
      var d := DatePart(DayOf(t));
      var r := AddMonths(t, months).value;
      var e := DatePart(DayOf(r));
      && MonthIndex(e) == MonthIndex(d) + months
      && e.day == Min(d.day, DaysInMonth(e.year, e.month))
      && TimeOfDay(r) == TimeOfDay(t)
  {
    var d := DatePart(DayOf(t));
    var tod := TimeOfDay(t);
    assert AddMonths(t, months) == MonthsFrom(d, tod, months);
    MonthsFromFails(d, tod, months);
    if MonthsFrom(d, tod, months).Some? {
      MonthsFromLands(d, tod, months);
    }
  }

  lemma MonthsFromFails(d: Date, tod: int, months: int)
    requires ValidDate(d) && 0 <= tod < SecondsPerDay
    ensures MonthsFrom(d, tod, months).None? <==>
      var target := MonthIndex(d) + months;
      months < -120000 || months > 120000 || target < 12 || target >= 12 * 10000
  {
  }

  lemma MonthsFromLands(d: Date, tod: int, months: int)
    requires ValidDate(d) && 0 <= tod < SecondsPerDay
    requires MonthsFrom(d, tod, months).Some?
    ensures var r := MonthsFrom(d, tod, months).value;
      var e := DatePart(DayOf(r));
      && MonthIndex(e) == MonthIndex(d) + months
      && e.day == Min(d.day, DaysInMonth(e.year, e.month))
      && TimeOfDay(r) == tod
  {
    var target := Landing(d, months);
    var n := DayNumber(target);
    assert MonthsFrom(d, tod, months) == Some(n * SecondsPerDay + tod);
    var r := MonthsFrom(d, tod, months).value;
    InstantParts(r, n, tod);
    DatePartOfDayNumber(target);
    LandingMonth(d, months);
  }

  /** An instant splits into its day and its time of day. */
  lemma InstantParts(r: Instant, n: int, tod: int)
    requires 0 <= tod < SecondsPerDay && r == n * SecondsPerDay + tod
    ensures DayOf(r) == n && TimeOfDay(r) == tod
  {
  }

  /** Stepping back never moves forward: a negative step lands strictly earlier and a
      zero step is the identity. */
  lemma AddMonthsBackward(t: Instant, months: int)
    requires months <= 0
    ensures months == 0 ==> AddMonths(t, months) == Some(t)
    ensures months < 0 && AddMonths(t, months).Some? ==> AddMonths(t, months).value < t
  {
    if months == 0 {
      AddMonthsZero(t);
    } else if AddMonths(t, months).Some? {
      AddMonthsEarlier(t, months);
    }
  }

  /** An instant is its day's number of seconds plus its time of day. */
  lemma InstantSplit(t: Instant)
    ensures t == DayNumber(DatePart(DayOf(t))) * SecondsPerDay + TimeOfDay(t)
  {
  }

  lemma AddMonthsZero(t: Instant)
    ensures AddMonths(t, 0) == Some(t)
  {
    var d := DatePart(DayOf(t));
    AddMonthsSteps(t, 0);
    assert 12 <= MonthIndex(d) < 12 * 10000;
    var r := AddMonths(t, 0).value;
    var e := DatePart(DayOf(r));
    MonthIndexUnique(e, d);
    assert e == d;
    InstantSplit(t);
    InstantSplit(r);
    SameParts(r, t, DayNumber(d), TimeOfDay(t));
  }

  /** Distinct months of valid dates have distinct month indices. */
  lemma MonthIndexUnique(a: Date, b: Date)
    requires ValidDate(a) && ValidDate(b) && MonthIndex(a) == MonthIndex(b)
    ensures a.year == b.year && a.month == b.month
  {
  }

  lemma SameParts(r: Instant, t: Instant, n: int, tod: int)
    requires r == n * SecondsPerDay + tod && t == n * SecondsPerDay + tod
    ensures Some(r) == Some(t)
  {
  }

  lemma AddMonthsEarlier(t: Instant, months: int)
    requires months < 0 && AddMonths(t, months).Some?
    ensures AddMonths(t, months).value < t
  {
    var r := AddMonths(t, months).value;
    AddMonthsSteps(t, months);
    DayNumberOrder(DatePart(DayOf(r)), DatePart(DayOf(t)));
    InstantSplit(t);
    InstantSplit(r);
  }
}
