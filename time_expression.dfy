/** The date-expression resolver of the reporter's configuration loader: it turns the text
    of TimeFrom or TimeTo into a UTC instant, or into nothing. The accepted forms, tried in
    this order, are "now" in any letter case, a clock time "H:mm" or "H:mm:ss", a relative
    offset such as "7d", a hybrid offset with a clock time such as "7d 06:00", and
    finally free-form date text handed to the culture's date parser. */
module TimeExpression {
  import opened Wrappers
  import opened Text
  import opened Calendar

  /** What the resolver reads from its host, each fixed for one call: the local value of
      DateTime.Now, the date that DateTime.ParseExact attaches to text holding only a time
      of day, and the local zone's offset from UTC in seconds (local = UTC + utcOffset). */
  datatype Clock = Clock(now: Instant, parseDate: Day, utcOffset: int)

  /** A time of day as hour, minute and second fields. */
  datatype Hms = Hms(hour: int, minute: int, second: int)

  predicate ValidHms(t: Hms) {
    0 <= t.hour <= 23 && 0 <= t.minute <= 59 && 0 <= t.second <= 59
  }

  function HmsSeconds(t: Hms): int {
    t.hour * 3600 + t.minute * 60 + t.second
  }

  // ---------------------------------------------------------------- clock-time grammar

  /** [0-1]?[0-9] | 2[0-3] */
  predicate IsHourText(h: string) {
    || (|h| == 1 && IsDigit(h[0]))
    || (|h| == 2 && (('0' <= h[0] <= '1' && IsDigit(h[1])) || (h[0] == '2' && '0' <= h[1] <= '3')))
  }

  /** [0-5][0-9] */
  predicate IsSixtyText(m: string) {
    |m| == 2 && '0' <= m[0] <= '5' && IsDigit(m[1])
  }

  /** The length of the hour part of a clock time: its first ':' stands at index 1 or 2. */
  function HourLength(s: string): nat {
    if |s| > 1 && s[1] == ':' then 1 else 2
  }

  /** The whole text matches ^((?:[0-1]?[0-9]|2[0-3])\:(?:[0-5][0-9])(?:\:[0-5][0-9])?)$ */
  predicate IsClockTime(s: string) {
    var n := HourLength(s);
    && |s| >= n + 3
    && IsHourText(s[..n]) && s[n] == ':' && IsSixtyText(s[n + 1..n + 3])
    && (|s| == n + 3 || (|s| == n + 6 && s[n + 3] == ':' && IsSixtyText(s[n + 4..])))
  }

  /** The fields a matched clock time spells (an absent second is zero). */
  function ClockFields(s: string): (t: Hms)
    requires IsClockTime(s)
    ensures ValidHms(t)
  {
    var n := HourLength(s);
    ClockTextInRange(s);
    Hms(DigitsValue(s[..n]), DigitsValue(s[n + 1..n + 3]), if |s| == n + 6 then DigitsValue(s[n + 4..]) else 0)
  }

  lemma ClockTextInRange(s: string)
    requires IsClockTime(s)
    ensures var n := HourLength(s);
      && DigitsValue(s[..n]) <= 23 && DigitsValue(s[n + 1..n + 3]) <= 59
      && (|s| == n + 6 ==> DigitsValue(s[n + 4..]) <= 59)
  {
    var n := HourLength(s);
    TwoDigitValue(s[n + 1..n + 3]);
    if n == 2 {
      TwoDigitValue(s[..n]);
    } else {
      OneDigitValue(s[..n]);
    }
    if |s| == n + 6 {
      TwoDigitValue(s[n + 4..]);
    }
  }

  lemma OneDigitValue(x: string)
    requires |x| == 1 && AllDigits(x)
    ensures DigitsValue(x) == DigitValue(x[0])
  {
    assert x[..0] == [];
  }

  lemma TwoDigitValue(x: string)
    requires |x| == 2 && AllDigits(x)
    ensures DigitsValue(x) == DigitValue(x[0]) * 10 + DigitValue(x[1])
  {
    OneDigitValue(x[..1]);
  }

  function DigitChar(n: int): char
    requires 0 <= n <= 9
  {
    ('0' as int + n) as char
  }

  function TwoDigits(n: int): string
    requires 0 <= n <= 99
  {
    [DigitChar(n / 10), DigitChar(n % 10)]
  }

  /** A time of day written as H:mm or H:mm:ss, the hour with a leading zero when padHour. */
  function RenderClock(t: Hms, padHour: bool, withSeconds: bool): string
    requires ValidHms(t)
  {
    HourDigits(t.hour, padHour) + ":" + TwoDigits(t.minute) + SecondsSuffix(t.second, withSeconds)
  }

  function HourDigits(hour: int, padHour: bool): string
    requires 0 <= hour <= 23
  {
    if padHour || hour >= 10 then TwoDigits(hour) else [DigitChar(hour)]
  }

  function SecondsSuffix(second: int, withSeconds: bool): string
    requires 0 <= second <= 59
  {
    if withSeconds then ":" + TwoDigits(second) else ""
  }

  // ---------------------------------------------------------------- exact time parsing

  /** DateTime.ParseExact(time, "H:mm:ss" or "H:mm", InvariantCulture): the hour takes one
      digit, or two when a second digit follows; minute and second take exactly two; each
      field must be in range and nothing may follow. None where TryParseExact fails. */
  function ParseExactTime(time: string, withSeconds: bool): Option<Hms> {
    var hl := if |time| >= 2 && IsDigit(time[0]) && IsDigit(time[1]) then 2
              else if |time| >= 1 && IsDigit(time[0]) then 1 else 0;
    if hl == 0 then None
    else
      var rest := time[hl..];
      if |rest| != (if withSeconds then 6 else 3) || rest[0] != ':' || !IsDigit(rest[1]) || !IsDigit(rest[2]) then None
      else if withSeconds && (rest[3] != ':' || !IsDigit(rest[4]) || !IsDigit(rest[5])) then None
      else
        var t := Hms(DigitsValue(time[..hl]), DigitsValue(rest[1..3]), if withSeconds then DigitsValue(rest[4..6]) else 0);
        if t.hour > 23 || t.minute > 59 || t.second > 59 then None else Some(t)
  }

  /** The local instant at time of day t on day d. */
  function At(d: Day, t: Hms): Instant
    requires ValidHms(t)
  {
    d * SecondsPerDay + HmsSeconds(t)
  }

  /** ParseTimeString: tries "H:mm:ss", then "H:mm"; the time of day is put on the parse
      date and converted to UTC. */
  function ParseTimeString(time: string, clock: Clock): Option<Instant> {
    match ParseExactTime(time, true)
    case Some(t) => Some(ToUniversal(At(clock.parseDate, t), clock.utcOffset))
    case None =>
      match ParseExactTime(time, false)
      case Some(t) => Some(ToUniversal(At(clock.parseDate, t), clock.utcOffset))
      case None => None
  }

  /** Every text the clock-time pattern matches parses, to the fields it spells, which are
      in range; so the resolver's clock branch and hybrid branch never see a failed parse. */
  lemma ClockTimeParses(s: string, clock: Clock)
    requires IsClockTime(s)
    ensures ParseTimeString(s, clock) == Some(ToUniversal(At(clock.parseDate, ClockFields(s)), clock.utcOffset))
  {
    var n := HourLength(s);
    var f := ClockFields(s);
    assert IsDigit(s[0]);
    assert n == 2 <==> IsDigit(s[1]);
    assert s[..n][..n - 1] == s[..n - 1];
    if |s| == n + 6 {
      var rest := s[n..];
      assert rest[1..3] == s[n + 1..n + 3];
      assert rest[4..6] == s[n + 4..];
      assert ParseExactTime(s, true) == Some(f);
    } else {
      assert ParseExactTime(s, true) == None;
      var rest := s[n..];
      assert rest[1..3] == s[n + 1..n + 3];
      assert ParseExactTime(s, false) == Some(f);
    }
  }

  /** Conversely, every time of day in range, written with or without a leading zero on the
      hour and with or without seconds, is a clock time that spells exactly that time. */
  lemma ClockTimeAccepts(t: Hms, padHour: bool, withSeconds: bool)
    requires ValidHms(t)
    ensures IsClockTime(RenderClock(t, padHour, withSeconds))
    ensures ClockFields(RenderClock(t, padHour, withSeconds))
         == Hms(t.hour, t.minute, if withSeconds then t.second else 0)
  {
    var h := HourDigits(t.hour, padHour);
    var m := TwoDigits(t.minute);
    var z := SecondsSuffix(t.second, withSeconds);
    ClockLayout(h, m, z);
    HourDigitsText(t.hour, padHour);
    SixtyDigits(t.minute);
    if withSeconds {
      assert z[1..] == TwoDigits(t.second);
      SixtyDigits(t.second);
    }
  }

  /** Where the parts of hour + ":" + minute + seconds stand in the whole. */
  lemma ClockLayout(h: string, m: string, z: string)
    requires 1 <= |h| <= 2 && |m| == 2 && (z == "" || (|z| == 3 && z[0] == ':'))
    ensures var s := h + ":" + m + z;
      && |s| == |h| + 3 + |z| && s[..|h|] == h && s[|h|] == ':' && s[|h| + 1..|h| + 3] == m
      && (|h| == 2 ==> s[1] == h[1])
      && (|z| == 3 ==> s[|h| + 3] == ':' && s[|h| + 4..] == z[1..])
  {
  }

  /** The rendered hour is hour text of its own value, one digit long exactly when a ':'
      follows at index 1. */
  lemma HourDigitsText(hour: int, padHour: bool)
    requires 0 <= hour <= 23
    ensures var h := HourDigits(hour, padHour);
      && 1 <= |h| <= 2 && IsHourText(h) && AllDigits(h) && DigitsValue(h) == hour
      && (|h| == 2 ==> h[1] != ':')
  {
    var h := HourDigits(hour, padHour);
    if |h| == 2 {
      TwoDigitValue(h);
    } else {
      OneDigitValue(h);
    }
  }

  lemma SixtyDigits(n: int)
    requires 0 <= n <= 59
    ensures IsSixtyText(TwoDigits(n)) && DigitsValue(TwoDigits(n)) == n
  {
    TwoDigitValue(TwoDigits(n));
  }

  /** Out-of-range fields are outside the clock-time grammar. */
  lemma OutOfRangeClockTimes()
    ensures !IsClockTime("25:00") && !IsClockTime("12:60") && !IsClockTime("24:00:00")
    ensures !IsClockTime("123:00") && !IsClockTime("12:5") && !IsClockTime(":30")
  {
    assert "25:00"[..2] == "25";
    assert "24:00:00"[..2] == "24";
    assert "12:60"[3..5] == "60";
    assert "12:5"[3..] == "5";
  }

  // ---------------------------------------------------------------- relative and hybrid grammar

  /** The unit letters: seconds, minutes, hours, days, weeks and (capital M) months. */
  predicate IsUnit(c: char) {
    c == 's' || c == 'm' || c == 'h' || c == 'd' || c == 'w' || c == 'M'
  }

  /** The digits and the unit of a relative offset. */
  datatype Offset = Offset(digits: string, unit: string)

  predicate ValidOffset(o: Offset) {
    o.digits != [] && AllDigits(o.digits) && |o.unit| == 1 && IsUnit(o.unit[0])
  }

  /** The whole text matches ^(\d+)(s|m|h|d|w|M)$, giving its two groups. */
  function MatchRelative(s: string): (r: Option<Offset>)
    ensures r.Some? ==> ValidOffset(r.value) && s == r.value.digits + r.value.unit
  {
    if |s| >= 2 && AllDigits(s[..|s| - 1]) && IsUnit(s[|s| - 1]) then
      assert s == s[..|s| - 1] + [s[|s| - 1]];
      Some(Offset(s[..|s| - 1], [s[|s| - 1]]))
    else None
  }

  /** Every digit run followed by one unit letter matches, with exactly those groups. */
  lemma MatchRelativeAccepts(o: Offset)
    requires ValidOffset(o)
    ensures MatchRelative(o.digits + o.unit) == Some(o)
  {
    var s := o.digits + o.unit;
    assert s[..|s| - 1] == o.digits;
    assert [s[|s| - 1]] == o.unit;
  }

  /** The length of the longest run of digits at the start of s. */
  function DigitRun(s: string): (n: nat)
    ensures n <= |s| && AllDigits(s[..n])
    ensures n < |s| ==> !IsDigit(s[n])
  {
    var n := DigitsFrom(s, 0);
    assert forall j :: 0 <= j < n ==> s[..n][j] == s[j];
    n
  }

  /** The index of the first non-digit at or after i. */
  function DigitsFrom(s: string, i: nat): (n: nat)
    requires i <= |s|
    ensures i <= n <= |s|
    ensures forall j :: i <= j < n ==> IsDigit(s[j])
    ensures n < |s| ==> !IsDigit(s[n])
    decreases |s| - i
  {
    if i < |s| && IsDigit(s[i]) then DigitsFrom(s, i + 1) else i
  }

  /** The three groups of a hybrid offset, and the white space between them. */
  datatype Hybrid = Hybrid(offset: Offset, space: string, clock: string)

  predicate ValidHybrid(h: Hybrid) {
    ValidOffset(h.offset) && h.space != [] && AllWhite(h.space, AnyWhite) && IsClockTime(h.clock)
  }

  function HybridText(h: Hybrid): string {
    h.offset.digits + h.offset.unit + h.space + h.clock
  }

  /** The length of the longest run of white space (the class \s) at the start of s. */
  function WhiteRun(s: string): (n: nat)
    ensures n <= |s| && AllWhite(s[..n], AnyWhite)
    ensures n < |s| ==> !IsWhite(s[n], AnyWhite)
  {
    var n := SkipWhite(s, AnyWhite, 0);
    assert forall j :: 0 <= j < n ==> s[..n][j] == s[j];
    n
  }

  /** The whole text matches ^(\d+)(s|m|h|d|w|M)\s+(clock time)$. A digit run cannot be
      followed by another digit, and a clock time starts with a digit, which is not white
      space, so the groups end where the first non-digit and the first non-space fall. */
  function MatchHybrid(s: string): Option<Hybrid> {
    var n := DigitRun(s);
    if n == 0 || n == |s| || !IsUnit(s[n]) then None
    else
      var w := WhiteRun(s[n + 1..]);
      if w == 0 || !IsClockTime(s[n + 1 + w..]) then None
      else Some(HybridAt(s, n, w))
  }

  /** The groups of s when the digits take n characters and the white space w. */
  function HybridAt(s: string, n: nat, w: nat): Hybrid
    requires n + 1 + w <= |s|
  {
    Hybrid(Offset(s[..n], [s[n]]), s[n + 1..n + 1 + w], s[n + 1 + w..])
  }

  /** A match splits the text into its digits, its unit, non-empty white space and a
      clock time, which put back together give the text. */
  lemma MatchHybridSound(s: string)
    ensures MatchHybrid(s).Some? ==> ValidHybrid(MatchHybrid(s).value) && s == HybridText(MatchHybrid(s).value)
  {
    if MatchHybrid(s).Some? {
      var n := DigitRun(s);
      var w := WhiteRun(s[n + 1..]);
      HybridSplit(s, n, w);
    }
  }

  lemma HybridSplit(s: string, n: nat, w: nat)
    requires n + 1 + w <= |s|
    ensures s == s[..n] + [s[n]] + s[n + 1..n + 1 + w] + s[n + 1 + w..]
    ensures s[n + 1..][..w] == s[n + 1..n + 1 + w]
  {
  }

  /** Every well-formed hybrid text matches, with exactly its groups. */
  lemma MatchHybridAccepts(h: Hybrid)
    requires ValidHybrid(h)
    ensures MatchHybrid(HybridText(h)) == Some(h)
  {
    var s := HybridText(h);
    var d := |h.offset.digits|;
    var w := |h.space|;
    HybridTextRuns(h);
    MatchHybridAt(s, d, w);
    HybridTextParts(h.offset.digits, h.offset.unit, h.space, h.clock);
  }

  /** Where the four pieces of a hybrid text sit. */
  lemma HybridTextParts(a: string, u: string, b: string, c: string)
    requires |u| == 1
    ensures var s := a + u + b + c;
      && s[..|a|] == a && s[|a|] == u[0] && [s[|a|]] == u
      && s[|a| + 1..] == b + c
      && s[|a| + 1..|a| + 1 + |b|] == b && s[|a| + 1 + |b|..] == c
  {
  }

  /** In a hybrid text the digit run and the white run end where its groups do. */
  lemma HybridTextRuns(h: Hybrid)
    requires ValidHybrid(h)
    ensures var s := HybridText(h);
      var d := |h.offset.digits|;
      && d < |s| && DigitRun(s) == d && IsUnit(s[d])
      && WhiteRun(s[d + 1..]) == |h.space| && IsClockTime(s[d + 1 + |h.space|..])
  {
    var s := HybridText(h);
    var d := |h.offset.digits|;
    var w := |h.space|;
    HybridTextParts(h.offset.digits, h.offset.unit, h.space, h.clock);
    LongestRun(s, d);
    var rest := s[d + 1..];
    ClockTimeCharacters(h.clock);
    WhiteThenClock(h.space, h.clock);
    LongestWhite(rest, w, WhiteRun(rest));
  }

  lemma WhiteThenClock(b: string, c: string)
    requires AllWhite(b, AnyWhite) && c != [] && IsDigit(c[0])
    ensures var r := b + c;
      && |b| < |r| && AllWhite(r[..|b|], AnyWhite) && !IsWhite(r[|b|], AnyWhite)
  {
    assert (b + c)[..|b|] == b;
  }

  /** MatchHybrid once its two runs are known. */
  lemma MatchHybridAt(s: string, n: nat, w: nat)
    requires 0 < n < |s| && DigitRun(s) == n && IsUnit(s[n])
    requires 0 < w && WhiteRun(s[n + 1..]) == w && IsClockTime(s[n + 1 + w..])
    ensures MatchHybrid(s) == Some(HybridAt(s, n, w))
  {
  }

  lemma LongestRun(s: string, d: nat)
    requires d <= |s| && AllDigits(s[..d]) && (d < |s| ==> !IsDigit(s[d]))
    ensures DigitRun(s) == d
  {
    var n := DigitRun(s);
    assert forall i :: 0 <= i < d ==> s[..d][i] == s[i];
    assert forall i :: 0 <= i < n ==> s[..n][i] == s[i];
  }

  lemma LongestWhite(s: string, a: nat, b: nat)
    requires a <= |s| && b <= |s|
    requires AllWhite(s[..a], AnyWhite) && (a < |s| ==> !IsWhite(s[a], AnyWhite))
    requires AllWhite(s[..b], AnyWhite) && (b < |s| ==> !IsWhite(s[b], AnyWhite))
    ensures a == b
  {
    assert forall i :: 0 <= i < a ==> s[..a][i] == s[i];
    assert forall i :: 0 <= i < b ==> s[..b][i] == s[i];
  }

  /** A clock time is made of digits and colons, and starts and ends with a digit. */
  lemma ClockTimeCharacters(s: string)
    requires IsClockTime(s)
    ensures IsDigit(s[0]) && IsDigit(s[|s| - 1])
    ensures forall i :: 0 <= i < |s| ==> IsDigit(s[i]) || s[i] == ':'
  {
    var n := HourLength(s);
    assert s[0] == s[..n][0];
    if |s| == n + 3 {
      assert s[|s| - 1] == s[n + 1..n + 3][1];
    } else {
      assert s[|s| - 1] == s[n + 4..][1];
    }
    forall i | 0 <= i < |s| ensures IsDigit(s[i]) || s[i] == ':' {
      if i < n {
        assert s[i] == s[..n][i];
      } else if n < i < n + 3 {
        assert s[i] == s[n + 1..n + 3][i - n - 1];
      } else if n + 3 < i {
        assert s[i] == s[n + 4..][i - n - 4];
      }
    }
  }

  /** The four patterns exclude one another, so the order in which the resolver tries
      them only decides what reaches the free-form parser. */
  lemma PatternsDisjoint(s: string)
    ensures EqualsIgnoreCase(s, "now") ==> !IsClockTime(s) && MatchRelative(s).None? && MatchHybrid(s).None?
    ensures IsClockTime(s) ==> MatchRelative(s).None? && MatchHybrid(s).None?
    ensures MatchRelative(s).Some? ==> MatchHybrid(s).None?
  {
    if EqualsIgnoreCase(s, "now") {
      assert Lower(s[0]) == 'n';
      NowIsNoNumber(s);
    }
    if IsClockTime(s) {
      ClockTimeCharacters(s);
      ClockTimeIsNoOffset(s);
    }
    if MatchRelative(s).Some? {
      RelativeIsNoHybrid(s);
    }
  }

  lemma NowIsNoNumber(s: string)
    requires |s| == 3 && !IsDigit(s[0]) && !IsDigit(s[2])
    ensures !IsClockTime(s) && MatchRelative(s).None? && MatchHybrid(s).None?
  {
  }

  lemma ClockTimeIsNoOffset(s: string)
    requires s != [] && IsDigit(s[|s| - 1])
    requires forall i :: 0 <= i < |s| ==> IsDigit(s[i]) || s[i] == ':'
    ensures MatchRelative(s).None? && MatchHybrid(s).None?
  {
    assert !IsUnit(s[|s| - 1]);
    var n := DigitRun(s);
    if n < |s| {
      assert s[n] == ':';
    }
  }

  lemma RelativeIsNoHybrid(s: string)
    requires MatchRelative(s).Some?
    ensures MatchHybrid(s).None?
  {
    MatchHybridSound(s);
  }

  // ---------------------------------------------------------------- ParseDateExpression

  /** Lifts DateTime.ToUniversalTime over a result that may have failed. */
  function UniversalOf(t: Option<Instant>, offset: int): Option<Instant> {
    match t
    case Some(v) => Some(ToUniversal(v, offset))
    case None => None
  }

  /** ParseDateExpression(startTime, time, expression): steps `time` units back from the
      local start and converts to UTC; an unknown unit, or a step that leaves the calendar
      (where .NET throws and the resolver catches), gives None. The week step is 7 * time
      days computed exactly; ParseDateExpressionAsWritten keeps the 32-bit product and is the step
      the resolver uses. */
  function ParseDateExpression(startTime: Instant, time: int, expression: string, offset: int): Option<Instant> {
    match expression
    case "s" => UniversalOf(AddSeconds(startTime, -time), offset)
    case "m" => UniversalOf(AddMinutes(startTime, -time), offset)
    case "h" => UniversalOf(AddHours(startTime, -time), offset)
    case "d" => UniversalOf(AddDays(startTime, -time), offset)
    case "w" => UniversalOf(AddDays(startTime, -(7 * time)), offset)
    case "M" => UniversalOf(AddMonths(startTime, -time), offset)
    case _ => None
  }

  /** The length of one unit in seconds, for the units that are fixed durations. */
  function UnitSeconds(unit: string): int {
    match unit
    case "s" => 1
    case "m" => 60
    case "h" => 3600
    case "d" => SecondsPerDay
    case "w" => 7 * SecondsPerDay
    case _ => 0
  }

  /** The units: "s", "m", "h", "d" and "w" go back a fixed number of seconds each, (capital)
      "M" goes back whole calendar months, and every other unit gives None. */
  lemma ParseDateExpressionUnits(startTime: Instant, time: int, expression: string, offset: int)
    ensures expression in {"s", "m", "h", "d", "w"} ==>
      ParseDateExpression(startTime, time, expression, offset)
      == (var t := startTime - time * UnitSeconds(expression);
          if 0 <= t <= MaxSecond then Some(ToUniversal(t, offset)) else None)
    ensures expression == "M" ==>
      ParseDateExpression(startTime, time, expression, offset) == UniversalOf(AddMonths(startTime, -time), offset)
    ensures expression !in {"s", "m", "h", "d", "w", "M"} ==>
      ParseDateExpression(startTime, time, expression, offset) == None
  {
    if expression == "s" {
      assert startTime - time * UnitSeconds(expression) == startTime + -time;
    } else if expression == "m" {
      assert startTime - time * UnitSeconds(expression) == startTime + -time * 60;
    } else if expression == "h" {
      assert startTime - time * UnitSeconds(expression) == startTime + -time * 3600;
    } else if expression == "d" {
      assert startTime - time * UnitSeconds(expression) == startTime + -time * SecondsPerDay;
    } else if expression == "w" {
      assert startTime - time * UnitSeconds(expression) == startTime + -(7 * time) * SecondsPerDay;
    }
  }

  /** A non-negative offset never resolves to an instant later than its baseline, and a zero
      offset resolves to the baseline itself. */
  lemma NeverLaterThanStart(startTime: Instant, time: int, expression: string, offset: int)
    requires time >= 0
    ensures ParseDateExpression(startTime, time, expression, offset).Some? ==>
      ParseDateExpression(startTime, time, expression, offset).value <= ToUniversal(startTime, offset)
    ensures time == 0 && IsUnit(if |expression| == 1 then expression[0] else ' ') && |expression| == 1 ==>
      ParseDateExpression(startTime, time, expression, offset) == Some(ToUniversal(startTime, offset))
  {
    if expression == "M" {
      MonthsNeverLater(startTime, time, offset);
    } else if expression in {"s", "m", "h", "d", "w"} {
      UnitsNeverLater(startTime, time, expression, offset);
    }
    if time == 0 && |expression| == 1 && IsUnit(expression[0]) {
      assert expression == [expression[0]];
      assert expression in {"s", "m", "h", "d", "w", "M"};
      if expression == "M" {
        MonthsNeverLater(startTime, time, offset);
      } else {
        UnitsNeverLater(startTime, time, expression, offset);
      }
    }
  }

  lemma MonthsNeverLater(startTime: Instant, time: int, offset: int)
    requires time >= 0
    ensures ParseDateExpression(startTime, time, "M", offset).Some? ==>
      ParseDateExpression(startTime, time, "M", offset).value <= ToUniversal(startTime, offset)
    ensures time == 0 ==> ParseDateExpression(startTime, time, "M", offset) == Some(ToUniversal(startTime, offset))
  {
    AddMonthsBackward(startTime, -time);
    var m := AddMonths(startTime, -time);
    assert ParseDateExpression(startTime, time, "M", offset) == UniversalOf(m, offset);
    if m.Some? {
      ConversionsMonotone(m.value, startTime, offset);
      assert UniversalOf(m, offset) == Some(ToUniversal(m.value, offset));
    }
  }

  lemma UnitsNeverLater(startTime: Instant, time: int, expression: string, offset: int)
    requires time >= 0 && expression in {"s", "m", "h", "d", "w"}
    ensures ParseDateExpression(startTime, time, expression, offset).Some? ==>
      ParseDateExpression(startTime, time, expression, offset).value <= ToUniversal(startTime, offset)
    ensures time == 0 ==> ParseDateExpression(startTime, time, expression, offset) == Some(ToUniversal(startTime, offset))
  {
    ParseDateExpressionUnits(startTime, time, expression, offset);
    if ParseDateExpression(startTime, time, expression, offset).Some? {
      var t := startTime - time * UnitSeconds(expression);
      ConversionsMonotone(t, startTime, offset);
    }
  }

  /** ParseDateExpression with the week step as the source computes it: 7 * time in
      unchecked 32-bit arithmetic, then negated in 32 bits. */
  function ParseDateExpressionAsWritten(startTime: Instant, time: int, expression: string, offset: int): Option<Instant> {
    if expression == "w" then UniversalOf(AddDays(startTime, Wrap32(-Wrap32(7 * time))), offset)
    else ParseDateExpression(startTime, time, expression, offset)
  }

  /** As written, 613566756 weeks wrap around to -4 days: the expression "613566756w"
      resolves to four days AFTER its baseline, where 613566756 real weeks leave the
      calendar and the intended behaviour is no instant at all. */
  lemma WeekStepWrapsIntoTheFuture(startTime: Instant, offset: int)
    requires startTime + 4 * SecondsPerDay <= MaxSecond
    ensures ParseDateExpressionAsWritten(startTime, 613566756, "w", offset)
         == Some(ToUniversal(startTime + 4 * SecondsPerDay, offset))
    ensures ParseDateExpression(startTime, 613566756, "w", offset) == None
  {
    assert Wrap32(7 * 613566756) == -4;
    assert Wrap32(4) == 4;
  }

  /** Below the overflow the two agree: up to 306783378 weeks the 32-bit product is exact. */
  lemma AsWrittenAgreesWithoutOverflow(startTime: Instant, time: int, expression: string, offset: int)
    requires 0 <= time <= 306783378
    ensures ParseDateExpressionAsWritten(startTime, time, expression, offset)
         == ParseDateExpression(startTime, time, expression, offset)
  {
    if expression == "w" {
      assert Wrap32(7 * time) == 7 * time;
      assert Wrap32(-(7 * time)) == -(7 * time);
    }
  }

  // ---------------------------------------------------------------- ParseDateTime

  /** The text a pattern anchored by ^ and $ is matched against: .NET's $ also matches
      before one final line feed, and none of the three patterns can match a line feed, so
      the patterns see the text without it and their groups never include it. */
  function RegexSubject(s: string): (r: string)
    ensures |r| <= |s| && r == s[..|r|]
  {
    if s != [] && s[|s| - 1] == '\n' then s[..|s| - 1] else s
  }

  /** ParseDateTime(configValue): the rules in the order the resolver tries them. Every
      failure, including an exception inside a rule, gives None. tryParse stands for
      DateTime.TryParse under the current culture and gives a local instant. The relative
      and hybrid rules step back with the week step as the source computes it. */
  function ParseDateTime(configValue: Option<string>, clock: Clock, tryParse: string -> Option<Instant>): Option<Instant> {
    if configValue.None? || configValue.value == "" then None
    else
      var s := configValue.value;
      var subject := RegexSubject(s);
      if EqualsIgnoreCase(s, "now") then Some(ToUniversal(clock.now, clock.utcOffset))
      else if IsClockTime(subject) then ParseTimeString(subject, clock)
      else if MatchRelative(subject).Some? then
        var o := MatchRelative(subject).value;
        match TryParseInt32(o.digits)
        case None => None
        case Some(n) => ParseDateExpressionAsWritten(clock.now, n, o.unit, clock.utcOffset)
      else if MatchHybrid(subject).Some? then
        var h := MatchHybrid(subject).value;
        match ParseTimeString(h.clock, clock)
        case None => None
        case Some(relativeTime) =>
          match TryParseInt32(h.offset.digits)
          case None => None
          case Some(n) => ParseDateExpressionAsWritten(ToLocal(relativeTime, clock.utcOffset), n, h.offset.unit, clock.utcOffset)
      else UniversalOf(tryParse(s), clock.utcOffset)
  }

  /** No text, or empty text, resolves to nothing; "now" in any letter case to the current
      instant in UTC. */
  lemma NowAndEmpty(s: string, clock: Clock, tryParse: string -> Option<Instant>)
    ensures ParseDateTime(None, clock, tryParse) == None
    ensures ParseDateTime(Some(""), clock, tryParse) == None
    ensures EqualsIgnoreCase(s, "now") ==> ParseDateTime(Some(s), clock, tryParse) == Some(ToUniversal(clock.now, clock.utcOffset))
    ensures EqualsIgnoreCase("NOW", "now") && EqualsIgnoreCase("Now", "now") && !EqualsIgnoreCase("nov", "now")
  {
    if EqualsIgnoreCase(s, "now") {
      assert s != "";
    }
    assert Lower('O') == 'o' && Lower('W') == 'w' && Lower('N') == 'n';
    assert Lower("nov"[2]) != Lower("now"[2]);
  }

  /** A clock time resolves to that time of day on the parse date, in UTC. */
  lemma ClockTimeRule(s: string, clock: Clock, tryParse: string -> Option<Instant>)
    requires IsClockTime(s)
    ensures ParseDateTime(Some(s), clock, tryParse)
         == Some(ToUniversal(At(clock.parseDate, ClockFields(s)), clock.utcOffset))
  {
    PatternsDisjoint(s);
    ClockTimeParses(s, clock);
    ClockTimeCharacters(s);
    assert RegexSubject(s) == s;
  }

  /** A relative offset goes back from now by the source's step, week counts wrapping in
      Int32; a count too large for Int32 gives None. */
  lemma RelativeRule(o: Offset, clock: Clock, tryParse: string -> Option<Instant>)
    requires ValidOffset(o)
    ensures ParseDateTime(Some(o.digits + o.unit), clock, tryParse)
         == if DigitsValue(o.digits) <= Int32Max
            then ParseDateExpressionAsWritten(clock.now, DigitsValue(o.digits), o.unit, clock.utcOffset)
            else None
  {
    var s := o.digits + o.unit;
    MatchRelativeAccepts(o);
    PatternsDisjoint(s);
    ParseUnsigned(o.digits);
    assert RegexSubject(s) == s;
  }

  /** A hybrid offset goes back from the clock time on the parse date, not from now; its
      clock part always parses. Unless a UTC round trip clamps the anchor, the anchor is
      exactly that local time. */
  lemma HybridRule(h: Hybrid, clock: Clock, tryParse: string -> Option<Instant>)
    requires ValidHybrid(h)
    ensures var anchor := At(clock.parseDate, ClockFields(h.clock));
      0 <= anchor - clock.utcOffset <= MaxSecond ==>
      ParseDateTime(Some(HybridText(h)), clock, tryParse)
      == if DigitsValue(h.offset.digits) <= Int32Max
         then ParseDateExpressionAsWritten(anchor, DigitsValue(h.offset.digits), h.offset.unit, clock.utcOffset)
         else None
  {
    var s := HybridText(h);
    HybridTextDispatch(h);
    HybridBranch(s, clock, tryParse);
    ClockTimeParses(h.clock, clock);
    ParseUnsigned(h.offset.digits);
    var anchor := At(clock.parseDate, ClockFields(h.clock));
    if 0 <= anchor - clock.utcOffset <= MaxSecond {
      ToLocalUndoesToUniversal(anchor, clock.utcOffset);
    }
  }

  /** The resolver's hybrid branch, for text that reaches it. */
  lemma HybridBranch(s: string, clock: Clock, tryParse: string -> Option<Instant>)
    requires s != "" && RegexSubject(s) == s && !EqualsIgnoreCase(s, "now")
    requires !IsClockTime(s) && MatchRelative(s).None? && MatchHybrid(s).Some?
    ensures var h := MatchHybrid(s).value;
      ParseDateTime(Some(s), clock, tryParse)
      == match ParseTimeString(h.clock, clock)
         case None => None
         case Some(relativeTime) =>
           match TryParseInt32(h.offset.digits)
           case None => None
           case Some(n) => ParseDateExpressionAsWritten(ToLocal(relativeTime, clock.utcOffset), n, h.offset.unit, clock.utcOffset)
  {
  }

  /** Of the patterns, a hybrid text matches exactly the hybrid one. */
  lemma HybridTextDispatch(h: Hybrid)
    requires ValidHybrid(h)
    ensures var s := HybridText(h);
      && s != "" && RegexSubject(s) == s && !EqualsIgnoreCase(s, "now")
      && !IsClockTime(s) && MatchRelative(s).None? && MatchHybrid(s) == Some(h)
  {
    var s := HybridText(h);
    MatchHybridAccepts(h);
    HybridTextEnds(h);
    DigitEndIsSubject(s);
    DigitFirstIsNotNow(s);
    HybridIsNoOther(s);
  }

  lemma HybridTextEnds(h: Hybrid)
    requires ValidHybrid(h)
    ensures var s := HybridText(h);
      s != [] && IsDigit(s[0]) && IsDigit(s[|s| - 1])
  {
    var s := HybridText(h);
    ClockTimeCharacters(h.clock);
    assert s[|s| - 1] == h.clock[|h.clock| - 1];
    assert s[0] == h.offset.digits[0];
  }

  lemma DigitEndIsSubject(s: string)
    requires s != [] && IsDigit(s[|s| - 1])
    ensures RegexSubject(s) == s
  {
  }

  lemma HybridIsNoOther(s: string)
    requires MatchHybrid(s).Some?
    ensures !IsClockTime(s) && MatchRelative(s).None?
  {
    if IsClockTime(s) {
      ClockTimeCharacters(s);
      ClockTimeIsNoOffset(s);
    }
    if MatchRelative(s).Some? {
      RelativeIsNoHybrid(s);
    }
  }

  /** Only text that none of the four patterns matches reaches the culture's date parser;
      it gives None when that parser fails. */
  lemma FreeFormRule(s: string, clock: Clock, tryParse: string -> Option<Instant>, otherParse: string -> Option<Instant>)
    ensures var t := RegexSubject(s);
      (EqualsIgnoreCase(s, "now") || IsClockTime(t) || MatchRelative(t).Some? || MatchHybrid(t).Some?)
      ==> ParseDateTime(Some(s), clock, tryParse) == ParseDateTime(Some(s), clock, otherParse)
    ensures var t := RegexSubject(s);
      s != "" && !EqualsIgnoreCase(s, "now") && !IsClockTime(t) && MatchRelative(t).None? && MatchHybrid(t).None?
      ==> ParseDateTime(Some(s), clock, tryParse) == UniversalOf(tryParse(s), clock.utcOffset)
  {
  }

  /** A line feed after a clock time, a relative offset or a hybrid offset changes nothing. */
  lemma FinalLineFeedIgnored(s: string, clock: Clock, tryParse: string -> Option<Instant>)
    requires IsClockTime(s) || MatchRelative(s).Some? || MatchHybrid(s).Some?
    ensures ParseDateTime(Some(s + "\n"), clock, tryParse) == ParseDateTime(Some(s), clock, tryParse)
  {
    PatternTextDispatch(s);
    assert RegexSubject(s + "\n") == s;
  }

  /** Text that a pattern matches is not "now", does not end in a line feed, and is not
      "now" or empty once a line feed is added. */
  lemma PatternTextDispatch(s: string)
    requires IsClockTime(s) || MatchRelative(s).Some? || MatchHybrid(s).Some?
    ensures s != "" && RegexSubject(s) == s && !EqualsIgnoreCase(s, "now") && !EqualsIgnoreCase(s + "\n", "now")
  {
    if IsClockTime(s) {
      ClockTimeCharacters(s);
    } else if MatchRelative(s).Some? {
      var o := MatchRelative(s).value;
      assert s[0] == o.digits[0];
    } else {
      MatchHybridSound(s);
      var h := MatchHybrid(s).value;
      ClockTimeCharacters(h.clock);
      assert s[|s| - 1] == h.clock[|h.clock| - 1];
      assert s[0] == h.offset.digits[0];
    }
    DigitFirstIsNotNow(s);
    DigitFirstIsNotNow(s + "\n");
  }

  lemma DigitFirstIsNotNow(x: string)
    requires x != [] && IsDigit(x[0])
    ensures !EqualsIgnoreCase(x, "now")
  {
    assert Lower(x[0]) != Lower("now"[0]);
  }

  /** The current time matters only to "now" and to relative offsets: a clock time, a
      hybrid offset and free-form text resolve the same way at every moment. */
  lemma OnlyNowAndRelativeReadTheClock(s: string, clock: Clock, later: Instant, tryParse: string -> Option<Instant>)
    requires !EqualsIgnoreCase(s, "now") && MatchRelative(RegexSubject(s)).None?
    ensures ParseDateTime(Some(s), clock, tryParse) == ParseDateTime(Some(s), clock.(now := later), tryParse)
  {
    var subject := RegexSubject(s);
    if s != "" && IsClockTime(subject) {
      ParseTimeStringIgnoresNow(subject, clock, later);
    } else if s != "" && MatchHybrid(subject).Some? {
      ParseTimeStringIgnoresNow(MatchHybrid(subject).value.clock, clock, later);
    }
  }

  lemma ParseTimeStringIgnoresNow(time: string, clock: Clock, later: Instant)
    ensures ParseTimeString(time, clock) == ParseTimeString(time, clock.(now := later))
  {
  }

  /** Day numbers in January 2024. */
  lemma January2024(day: int)
    requires 1 <= day <= 31
    ensures ValidDate(Date(2024, 1, day)) && DayNumber(Date(2024, 1, day)) == 738884 + day
  {
  }

  /** "1d" resolves to one day before now, in UTC. */
  lemma OneDayBeforeNow(clock: Clock, tryParse: string -> Option<Instant>)
    requires SecondsPerDay <= clock.now
    ensures ParseDateTime(Some("1d"), clock, tryParse)
         == Some(ToUniversal(clock.now - SecondsPerDay, clock.utcOffset))
  {
    var o := Offset("1", "d");
    assert o.digits + o.unit == "1d";
    OneDigitValue("1");
    RelativeRule(o, clock, tryParse);
    assert ParseDateExpressionAsWritten(clock.now, 1, "d", clock.utcOffset)
        == ParseDateExpression(clock.now, 1, "d", clock.utcOffset);
    ParseDateExpressionUnits(clock.now, 1, "d", clock.utcOffset);
  }

  /** The resolver keeps the source's week step: "613566756w" resolves to four days AFTER
      now, because 7 * 613566756 wraps around to -4 in Int32. */
  lemma RelativeWeeksWrap(clock: Clock, tryParse: string -> Option<Instant>)
    requires clock.now + 4 * SecondsPerDay <= MaxSecond
    ensures ParseDateTime(Some("613566756w"), clock, tryParse)
         == Some(ToUniversal(clock.now + 4 * SecondsPerDay, clock.utcOffset))
  {
    var o := Offset("613566756", "w");
    assert o.digits + o.unit == "613566756w";
    WrappingCount();
    RelativeRule(o, clock, tryParse);
    WeekStepWrapsIntoTheFuture(clock.now, clock.utcOffset);
  }

  lemma WrappingCount()
    ensures AllDigits("613566756") && DigitsValue("613566756") == 613566756
  {
    var digits := "613566756";
    DigitsOfPrefix(digits, 0);
    DigitsOfPrefix(digits, 1);
    DigitsOfPrefix(digits, 2);
    DigitsOfPrefix(digits, 3);
    DigitsOfPrefix(digits, 4);
    DigitsOfPrefix(digits, 5);
    DigitsOfPrefix(digits, 6);
    DigitsOfPrefix(digits, 7);
    DigitsOfPrefix(digits, 8);
    assert digits[..9] == digits;
  }

  /** One more digit multiplies the value so far by ten and adds that digit. */
  lemma DigitsOfPrefix(s: string, k: nat)
    requires AllDigits(s) && k < |s|
    ensures AllDigits(s[..k]) && DigitsValue(s[..k + 1]) == DigitsValue(s[..k]) * 10 + DigitValue(s[k])
  {
    assert s[..k + 1][..k] == s[..k];
  }

  /** "1d" at 10:00 on 2 January 2024, with local time equal to UTC, resolves to 10:00 on
      1 January 2024. */
  lemma OneDayBack(tryParse: string -> Option<Instant>)
    ensures var now := DayNumber(Date(2024, 1, 2)) * SecondsPerDay + 10 * 3600;
      ParseDateTime(Some("1d"), Clock(now, DayNumber(Date(2024, 1, 2)), 0), tryParse)
      == Some(DayNumber(Date(2024, 1, 1)) * SecondsPerDay + 10 * 3600)
  {
    January2024(2);
    January2024(1);
    var now := DayNumber(Date(2024, 1, 2)) * SecondsPerDay + 10 * 3600;
    OneDayBeforeNow(Clock(now, DayNumber(Date(2024, 1, 2)), 0), tryParse);
  }

  /** "7d 06:00" goes back seven days from 06:00 on the parse date, whatever the time now:
      with the parse date 9 January 2024 it resolves to 06:00 on 2 January 2024. */
  lemma HybridSevenDaysBack(now: Instant, tryParse: string -> Option<Instant>)
    ensures var today := DayNumber(Date(2024, 1, 9));
      ParseDateTime(Some("7d 06:00"), Clock(now, today, 0), tryParse)
      == Some(DayNumber(Date(2024, 1, 2)) * SecondsPerDay + 6 * 3600)
  {
    January2024(9);
    January2024(2);
    var clock := Clock(now, DayNumber(Date(2024, 1, 9)), 0);
    var h := Hybrid(Offset("7", "d"), " ", "06:00");
    assert HybridText(h) == "7d 06:00";
    SixOClock();
    OneDigitValue("7");
    HybridRule(h, clock, tryParse);
    var anchor := At(clock.parseDate, Hms(6, 0, 0));
    assert ParseDateExpressionAsWritten(anchor, 7, "d", 0) == ParseDateExpression(anchor, 7, "d", 0);
    ParseDateExpressionUnits(anchor, 7, "d", 0);
  }

  lemma SixOClock()
    ensures IsClockTime("06:00") && ClockFields("06:00") == Hms(6, 0, 0)
  {
    assert "06:00"[..2] == "06" && "06:00"[3..5] == "00";
    TwoDigitValue("06");
    TwoDigitValue("00");
  }
}
