/** The reporter's configuration loader: the settings of one configuration file become the
    static configuration (path, report name and version, query, query timeout, report
    range and signal list) that the run decisions read. */
module ConfigFile {
  import opened Wrappers
  import opened Text
  import opened Calendar
  import opened TimeExpression

  /** ConfigurationManager.AppSettings[key]: the value, or null when the key is absent. */
  function Setting(settings: map<string, string>, key: string): Option<string> {
    if key in settings then Some(settings[key]) else None
  }

  /** String.IsNullOrEmpty. */
  predicate IsNullOrEmpty(s: Option<string>) {
    s.None? || s.value == ""
  }

  // ---------------------------------------------------------------- GetSignals

  /** GetSignals: nothing for a null or empty setting, otherwise every comma-separated
      piece, trimmed, empty pieces included. */
  function GetSignals(configValue: Option<string>): seq<string> {
    if IsNullOrEmpty(configValue) then [] else TrimEach(Split(configValue.value, ','))
  }

  /** A trimmed piece is a slice of the piece, so it holds no comma. */
  lemma TrimKeepsOut(s: string, c: char)
    requires c !in s
    ensures c !in Trim(s)
  {
  }

  /** The signals are the comma-separated pieces of the setting, one per piece and in their
      order, each trimmed; the pieces put back together with commas give the setting. */
  lemma GetSignalsPieces(configValue: Option<string>)
    ensures IsNullOrEmpty(configValue) ==> GetSignals(configValue) == []
    ensures !IsNullOrEmpty(configValue) ==>
      var v := configValue.value;
      var signals := GetSignals(configValue);
      && |signals| == Count(v, ',') + 1
      && Join(Split(v, ','), ',') == v
      && forall i :: 0 <= i < |signals| ==>
           signals[i] == Trim(Split(v, ',')[i]) && ',' !in signals[i] && IsTrimmedWith(signals[i], AnyWhite)
  {
    if !IsNullOrEmpty(configValue) {
      var v := configValue.value;
      JoinSplit(v, ',');
      var pieces := Split(v, ',');
      forall i | 0 <= i < |pieces| ensures ',' !in Trim(pieces[i]) {
        TrimKeepsOut(pieces[i], ',');
      }
    }
  }

  /** Comma-free pieces joined with commas come back as those pieces, each trimmed. */
  lemma GetSignalsOfJoin(pieces: seq<string>)
    requires |pieces| >= 1 && forall i :: 0 <= i < |pieces| ==> ',' !in pieces[i]
    requires Join(pieces, ',') != ""
    ensures GetSignals(Some(Join(pieces, ','))) == TrimEach(pieces)
  {
    SplitJoin(pieces, ',');
  }

  /** An empty piece between two commas is kept as an empty signal; null and empty settings
      give no signals at all. */
  lemma GetSignalsKeepsEmptyPieces(x: string, y: string)
    requires ',' !in x && ',' !in y
    ensures GetSignals(Some(x + ",," + y)) == [Trim(x), "", Trim(y)]
    ensures GetSignals(Some("")) == [] && GetSignals(None) == []
  {
    EmptyMiddleJoin(x, y);
    GetSignalsOfJoin([x, "", y]);
    TrimEmptyMiddle(x, y);
  }

  lemma EmptyMiddleJoin(x: string, y: string)
    ensures Join([x, "", y], ',') == x + ",," + y
  {
    var pieces := [x, "", y];
    assert pieces[1..] == ["", y] && pieces[1..][1..] == [y];
    var j2 := Join(pieces[1..][1..], ',');
    assert j2 == y;
    var j1 := Join(pieces[1..], ',');
    assert j1 == [] + [','] + j2;
    assert Join(pieces, ',') == x + [','] + j1;
    assert x + [','] + ([] + [','] + y) == x + ",," + y;
  }

  lemma TrimEmptyMiddle(x: string, y: string)
    ensures TrimEach([x, "", y]) == [Trim(x), "", Trim(y)]
  {
    TrimEachThree(x, "", y);
    assert AllWhite("", AnyWhite);
  }

  // ---------------------------------------------------------------- GetInt

  /** The object GetInt is handed: DBNull.Value, or a string reference that may be null. */
  datatype SettingObject = DbNull | Reference(text: Option<string>)

  /** GetInt: Int32.TryParse of the text; DBNull counts as empty text, and any text that
      does not parse (null and empty included) gives -1. */
  function GetInt(sourceObject: SettingObject): int {
    var sourceString := if sourceObject.DbNull? then Some("") else sourceObject.text;
    if sourceString.None? then -1
    else match TryParseInt32(sourceString.value)
      case Some(destInt) => destInt
      case None => -1
  }

  /** GetInt gives back every Int32 written in decimal, and -1 for DBNull, null, empty text
      and text that is not an Int32. */
  lemma GetIntRoundTrip(n: int, text: string)
    requires Int32Min <= n <= Int32Max
    ensures GetInt(Reference(Some(FormatInt(n)))) == n
    ensures GetInt(DbNull) == -1 && GetInt(Reference(None)) == -1 && GetInt(Reference(Some(""))) == -1
    ensures TryParseInt32(text).None? ==> GetInt(Reference(Some(text))) == -1
    ensures TryParseInt32(text).Some? ==> GetInt(Reference(Some(text))) == TryParseInt32(text).value
  {
    ParseFormatInt(n);
    assert TrimWith("", NumberWhite) == "";
  }

  // ---------------------------------------------------------------- Query

  /** The query text with every literal backslash-r pair, and then every literal
      backslash-n pair, removed (String.Replace with an empty replacement). Real carriage
      returns and line feeds stay. */
  function SanitizeQuery(query: string): string {
    RemoveAll(RemoveAll(query, "\\r"), "\\n")
  }

  /** Sanitising leaves a query alone exactly when it holds neither escape pair. */
  lemma SanitizeQueryUnchanged(query: string)
    ensures SanitizeQuery(query) == query <==> !Occurs(query, "\\r") && !Occurs(query, "\\n")
  {
    RemoveAllUnchangedIff(query, "\\r");
    var once := RemoveAll(query, "\\r");
    RemoveAllUnchangedIff(once, "\\n");
  }

  /** A single pass does not remove every escape pair: removing one can join a backslash
      before it to the letter after it, and real line breaks are not touched. */
  lemma SanitizeQuerySinglePass()
    ensures SanitizeQuery("a\\\\rr") == "a\\r"
    ensures SanitizeQuery("a\rb") == "a\rb"
  {
    EscapedReturnExposed();
    RealReturnKept();
  }

  lemma EscapedReturnExposed()
    ensures RemoveAll("a\\\\rr", "\\r") == "a\\r"
    ensures RemoveAll("a\\r", "\\n") == "a\\r"
  {
    var s := "a\\\\rr";
    assert s[1..] == "\\\\rr" && s[1..][1..] == "\\rr" && s[1..][1..][2..] == "r";
    assert RemoveAll("r", "\\r") == "r";
    assert StartsWith("\\rr", "\\r");
    assert RemoveAll("\\rr", "\\r") == "r";
    assert RemoveAll("\\\\rr", "\\r") == "\\r";
    var u := "a\\r";
    assert u[1..] == "\\r" && u[1..][1..] == "r";
    assert RemoveAll("r", "\\n") == "r";
    assert RemoveAll("\\r", "\\n") == "\\r";
  }

  lemma RealReturnKept()
    ensures RemoveAll("a\rb", "\\r") == "a\rb"
    ensures RemoveAll("a\rb", "\\n") == "a\rb"
  {
    var s := "a\rb";
    assert s[1..] == "\rb" && s[1..][1..] == "b" && s[1..][1..][1..] == [];
    assert RemoveAll("b", "\\r") == "b" && RemoveAll("\rb", "\\r") == "\rb";
    assert RemoveAll("b", "\\n") == "b" && RemoveAll("\rb", "\\n") == "\rb";
  }

  // ---------------------------------------------------------------- range repair

  /** The report range as two optional UTC instants. */
  datatype Range = Range(from: Option<Instant>, to: Option<Instant>)

  /** The range repair: when both ends are present and the end is not after the start,
      the START moves one day earlier (AddDays(-1), which throws below the calendar's
      first day); the end is never touched. */
  function RepairRange(r: Range): Try<Range> {
    if r.from.Some? && r.to.Some? && r.to.value - r.from.value <= 0 then
      match AddDays(r.from.value, -1)
      case Some(earlier) => Ok(Range(Some(earlier), r.to))
      case None => Threw
    else Ok(r)
  }

  /** What the repair does, and what it does not guarantee: it fires only on a present,
      non-increasing range, keeps the end, moves the start back exactly one day, and the
      repaired start is before the end only when the two were less than a day apart. */
  lemma RepairRangeEffect(r: Range)
    ensures !(r.from.Some? && r.to.Some? && r.to.value <= r.from.value) ==> RepairRange(r) == Ok(r)
    ensures r.from.Some? && r.to.Some? && r.to.value <= r.from.value ==>
      && (RepairRange(r).Threw? <==> r.from.value < SecondsPerDay)
      && (RepairRange(r).Ok? ==>
           && RepairRange(r).value.to == r.to
           && RepairRange(r).value.from == Some(r.from.value - SecondsPerDay)
           && (RepairRange(r).value.from.value < r.to.value <==> r.from.value - r.to.value < SecondsPerDay))
  {
  }

  /** A start two days after the end is still a day after the end once repaired. */
  lemma RepairRangeCanLeaveStartAfterEnd(to: Instant)
    requires to + 2 * SecondsPerDay <= MaxSecond
    ensures RepairRange(Range(Some(to + 2 * SecondsPerDay), Some(to)))
         == Ok(Range(Some(to + SecondsPerDay), Some(to)))
  {
  }

  /** TimeFrom "now" with TimeTo "1d", resolved less than a day apart: the end comes out
      before the start, and the repair moves the start back to the end or just before it,
      so the range is empty when both ends were resolved in the same second. */
  lemma NowToOneDayCollapses(fromClock: Clock, toClock: Clock, tryParse: string -> Option<Instant>)
    requires fromClock.utcOffset == toClock.utcOffset
    requires fromClock.now <= toClock.now < fromClock.now + SecondsPerDay
    requires SecondsPerDay <= fromClock.now && SecondsPerDay <= fromClock.now - fromClock.utcOffset
    requires toClock.now - toClock.utcOffset <= MaxSecond
    ensures var r := RepairRange(Range(ParseDateTime(Some("now"), fromClock, tryParse),
                                       ParseDateTime(Some("1d"), toClock, tryParse)));
      && r.Ok? && r.value.from.Some? && r.value.to.Some?
      && r.value.from.value <= r.value.to.value
      && (r.value.from.value == r.value.to.value <==> fromClock.now == toClock.now)
  {
    NowAndEmpty("now", fromClock, tryParse);
    OneDayBeforeNow(toClock, tryParse);
  }


  // ---------------------------------------------------------------- report identity

  /** What Assembly.GetEntryAssembly() yields for the name and version lookups: no
      assembly, or one whose name and version may be missing (a missing version makes
      Version.ToString() throw). */
  datatype EntryAssembly = NoEntryAssembly | EntryAssembly(name: Option<string>, version: Option<string>)

  /** Assembly.GetExecutingAssembly()'s name and version; a missing version throws too. */
  datatype ExecutingAssembly = ExecutingAssembly(name: Option<string>, version: Option<string>)

  /** The report name and version after the assembly lookups, and whether the first lookup
      threw so that the executing assembly had to be consulted. */
  datatype Identity = Identity(appName: Option<string>, appVersion: Option<string>, fellBack: bool)

  /** The two try blocks of the loader: the configured name is kept unless null or empty,
      the entry assembly supplies name and version, and only when it throws does the
      executing assembly do so, with empty text as the last resort. */
  function Identify(configured: Option<string>, entry: EntryAssembly, executing: ExecutingAssembly): Identity {
    match entry
    case NoEntryAssembly => Identity(if IsNullOrEmpty(configured) then None else configured, None, false)
    case EntryAssembly(name, version) =>
      var named := if IsNullOrEmpty(configured) then name else configured;
      if version.Some? then Identity(named, version, false)
      else
        var fallback := if IsNullOrEmpty(named) then executing.name else named;
        if executing.version.Some? then Identity(fallback, executing.version, true)
        else Identity(if IsNullOrEmpty(fallback) then Some("") else fallback, Some(""), true)
  }

  /** A configured name always survives; the fall-back runs exactly when the entry
      assembly exists without a version, and then the version is always set. */
  lemma IdentifyKeepsConfiguredName(configured: Option<string>, entry: EntryAssembly, executing: ExecutingAssembly)
    ensures !IsNullOrEmpty(configured) ==> Identify(configured, entry, executing).appName == configured
    ensures Identify(configured, entry, executing).fellBack <==> entry.EntryAssembly? && entry.version.None?
    ensures Identify(configured, entry, executing).fellBack ==> Identify(configured, entry, executing).appVersion.Some?
  {
  }

  /** QueryTimeout as loaded: GetInt of the QUERY setting (not of a timeout setting),
      raised to at least 1 only on the fall-back path. */
  function QueryTimeout(query: Option<string>, fellBack: bool): int {
    var parsed := GetInt(Reference(query));
    if fellBack && parsed < 1 then 1 else parsed
  }

  /** With a working entry assembly, an ordinary query text (one that is not a number)
      gives a timeout of -1; the clamp to one minute is reached only on the fall-back path. */
  lemma QueryTimeoutQuirks(query: string, fellBack: bool)
    ensures TryParseInt32(query).None? && !fellBack ==> QueryTimeout(Some(query), fellBack) == -1
    ensures fellBack ==> QueryTimeout(Some(query), fellBack) >= 1
    ensures TryParseInt32(query).Some? && TryParseInt32(query).value >= 1 ==>
      QueryTimeout(Some(query), fellBack) == TryParseInt32(query).value
  {
  }

  /** The report range before repair: each end resolved with the clock read at its turn. */
  function ConfiguredRange(settings: map<string, string>, fromClock: Clock, toClock: Clock,
                           tryParse: string -> Option<Instant>): Range {
    Range(ParseDateTime(Setting(settings, "TimeFrom"), fromClock, tryParse),
          ParseDateTime(Setting(settings, "TimeTo"), toClock, tryParse))
  }

  // ---------------------------------------------------------------- the loader

  /** The static configuration; null properties are None. */
  class Config {
    var configPath: Option<string>
    var appName: Option<string>
    var appVersion: Option<string>
    var query: Option<string>
    var queryTimeout: int
    var timeFrom: Option<Instant>
    var timeTo: Option<Instant>
    var signal: Option<seq<string>>

    /** Every property starts out null, and the timeout zero. */
    constructor ()
      ensures configPath.None? && appName.None? && appVersion.None? && query.None?
      ensures queryTimeout == 0 && timeFrom.None? && timeTo.None? && signal.None?
    {
      configPath := None;
      appName := None;
      appVersion := None;
      query := None;
      queryTimeout := 0;
      timeFrom := None;
      timeTo := None;
      signal := None;
    }

    /** LoadConfigFile: reads the settings of the current file in order. It returns false
        where the source throws (a null configuration-file path, a missing Query setting,
        or a repair below the calendar), leaving the properties assigned before that point
        changed and the rest as they were. The two ends of the range read the clock
        separately. */
    method LoadConfigFile(appConfigFile: Option<string>, settings: map<string, string>,
                          fromClock: Clock, toClock: Clock, tryParse: string -> Option<Instant>,
                          entry: EntryAssembly, executing: ExecutingAssembly) returns (loaded: bool)
      modifies this
      ensures var range := RepairRange(ConfiguredRange(settings, fromClock, toClock, tryParse));
        loaded <==> appConfigFile.Some? && "Query" in settings && range.Ok?
      ensures appConfigFile.None? ==> unchanged(this)
      ensures appConfigFile.Some? ==> configPath == appConfigFile
      ensures appConfigFile.Some? && "Query" !in settings ==>
        && appName == Setting(settings, "AppName")
        && appVersion == old(appVersion) && query == old(query) && queryTimeout == old(queryTimeout)
        && timeFrom == old(timeFrom) && timeTo == old(timeTo) && signal == old(signal)
      ensures appConfigFile.Some? && "Query" in settings ==>
        && query == Some(SanitizeQuery(settings["Query"]))
        && timeTo == ConfiguredRange(settings, fromClock, toClock, tryParse).to
      ensures var range := RepairRange(ConfiguredRange(settings, fromClock, toClock, tryParse));
        appConfigFile.Some? && "Query" in settings && range.Threw? ==>
        && appName == Setting(settings, "AppName") && appVersion == old(appVersion)
        && queryTimeout == GetInt(Reference(Setting(settings, "Query")))
        && timeFrom == ConfiguredRange(settings, fromClock, toClock, tryParse).from
        && signal == old(signal)
      ensures var range := RepairRange(ConfiguredRange(settings, fromClock, toClock, tryParse));
        var id := Identify(Setting(settings, "AppName"), entry, executing);
        loaded ==>
        && timeFrom == range.value.from && timeTo == range.value.to
        && signal == Some(GetSignals(Setting(settings, "Signal")))
        && appName == id.appName && appVersion == id.appVersion
        && queryTimeout == QueryTimeout(Setting(settings, "Query"), id.fellBack)
    {
      if appConfigFile.None? {
        return false;
      }
      configPath := appConfigFile;
      appName := Setting(settings, "AppName");
      var rawQuery := Setting(settings, "Query");
      if rawQuery.None? {
        return false;
      }
      query := Some(SanitizeQuery(rawQuery.value));
      queryTimeout := GetInt(Reference(rawQuery));
      var repaired := LoadRange(settings, fromClock, toClock, tryParse);
      if !repaired {
        return false;
      }
      signal := Some(GetSignals(Setting(settings, "Signal")));

      LookUpIdentity(entry, executing);
      return true;
    }

    /** The two ends of the report range and their repair; false where the repair throws,
        with the start as read. */
    method LoadRange(settings: map<string, string>, fromClock: Clock, toClock: Clock,
                     tryParse: string -> Option<Instant>) returns (repaired: bool)
      modifies this
      ensures var range := ConfiguredRange(settings, fromClock, toClock, tryParse);
        && (repaired <==> RepairRange(range).Ok?)
        && timeTo == range.to
        && timeFrom == if repaired then RepairRange(range).value.from else range.from
      ensures configPath == old(configPath) && appName == old(appName) && appVersion == old(appVersion)
        && query == old(query) && queryTimeout == old(queryTimeout) && signal == old(signal)
    {
      timeFrom := ParseDateTime(Setting(settings, "TimeFrom"), fromClock, tryParse);
      timeTo := ParseDateTime(Setting(settings, "TimeTo"), toClock, tryParse);
      if timeFrom.Some? && timeTo.Some? && timeTo.value - timeFrom.value <= 0 {
        var earlier := AddDays(timeFrom.value, -1);
        if earlier.None? {
          return false;
        }
        timeFrom := earlier;
      }
      return true;
    }

    /** The assembly lookups at the end of the loader, with the timeout clamp that only
        the fall-back path reaches. */
    method LookUpIdentity(entry: EntryAssembly, executing: ExecutingAssembly)
      modifies this
      ensures var id := Identify(old(appName), entry, executing);
        && appName == id.appName && appVersion == id.appVersion
        && queryTimeout == (if id.fellBack && old(queryTimeout) < 1 then 1 else old(queryTimeout))
      ensures configPath == old(configPath) && query == old(query) && timeFrom == old(timeFrom)
        && timeTo == old(timeTo) && signal == old(signal)
    {
      var isSuccess := true;
      match entry {
        case NoEntryAssembly =>
          if IsNullOrEmpty(appName) {
            appName := None;
          }
          appVersion := None;
        case EntryAssembly(name, version) =>
          if IsNullOrEmpty(appName) {
            appName := name;
          }
          if version.Some? {
            appVersion := version;
          } else {
            isSuccess := false;
          }
      }
      if isSuccess {
        return;
      }
      if IsNullOrEmpty(appName) {
        appName := executing.name;
      }
      if executing.version.Some? {
        appVersion := executing.version;
      } else {
        if IsNullOrEmpty(appName) {
          appName := Some("");
        }
        appVersion := Some("");
      }
      if queryTimeout < 1 {
        queryTimeout := 1;
      }
    }
  }
}
