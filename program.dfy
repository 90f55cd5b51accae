/** The run decisions of the reporter's entry point: which configuration argument is used,
    the order of the validation exits, which signals restrict the query, how the query
    and the delivery of the report end, and what the exit routine does. Every network,
    file and library call is an input. */
module Reporter {
  import opened Wrappers
  import opened Text
  import opened Calendar
  import TimeExpression
  import ConfigFile

  // ---------------------------------------------------------------- exit codes

  /** The exit codes. The last three are used by the entry point but are missing from the
      enumeration of exit codes in the repository. */
  datatype ExitCode =
    | Success | NoConfig | NoQuery | TimeFromInvalid | TimeToInvalid | NoDataReturned
    | ErrorWritingCsv | CsvFolderNotFound | QueryError | MailError
    | JiraError | TempFileError | NothingDone

  predicate IsListed(code: ExitCode) {
    !(code.JiraError? || code.TempFileError? || code.NothingDone?)
  }

  /** The integer values of the three unlisted codes, which the repository does not fix. */
  datatype UnlistedValues = UnlistedValues(jiraError: int, tempFileError: int, nothingDone: int)

  /** (int) exitCode. */
  function ExitValue(code: ExitCode, unlisted: UnlistedValues): int {
    match code
    case Success => 0
    case NoConfig => 1
    case NoQuery => 2
    case TimeFromInvalid => 3
    case TimeToInvalid => 4
    case NoDataReturned => 5
    case ErrorWritingCsv => 6
    case CsvFolderNotFound => 7
    case QueryError => 8
    case MailError => 9
    case JiraError => unlisted.jiraError
    case TempFileError => unlisted.tempFileError
    case NothingDone => unlisted.nothingDone
  }

  /** The listed codes have the distinct values 0 to 9, and only Success has 0. */
  lemma ListedValuesDistinct(a: ExitCode, b: ExitCode, unlisted: UnlistedValues)
    requires IsListed(a) && IsListed(b)
    ensures 0 <= ExitValue(a, unlisted) <= 9
    ensures ExitValue(a, unlisted) == ExitValue(b, unlisted) <==> a == b
    ensures ExitValue(a, unlisted) == 0 <==> a == Success
  {
  }

  // ---------------------------------------------------------------- ExitApp

  datatype LogLevel = Information | Error

  /** What ExitApp does before Environment.Exit: the level of the final log line, whether
      the usage line is logged, the temp file it tries to delete (a failing delete is only
      logged), and the process exit status. */
  datatype Shutdown = Shutdown(level: LogLevel, usageShown: bool, deletes: Option<string>, status: int)

  /** ExitApp as its decision table; RunExits states what this means for a whole run. */
  function ExitApp(exitCode: ExitCode, tempFile: Option<string>, unlisted: UnlistedValues): (s: Shutdown)
    ensures s.level == Information <==> exitCode == Success || exitCode == NoConfig
    ensures s.usageShown <==> exitCode == NoConfig
    ensures s.deletes.Some? <==> !ConfigFile.IsNullOrEmpty(tempFile)
    ensures s.deletes.Some? ==> s.deletes == tempFile
    ensures s.status == ExitValue(exitCode, unlisted)
  {
    var level := match exitCode
      case Success => Information
      case NoConfig => Information
      case _ => Error;
    Shutdown(level, exitCode == NoConfig,
             if ConfigFile.IsNullOrEmpty(tempFile) then None else tempFile,
             ExitValue(exitCode, unlisted))
  }

  // ---------------------------------------------------------------- configuration argument

  /** What the entry point reads from the configuration after a load. */
  datatype ConfigView = ConfigView(query: Option<string>, timeFrom: Option<Instant>, timeTo: Option<Instant>,
                                   signal: seq<string>)

  /** Config.GetConfig(path): the loaded view, or an exception (which nothing catches). */
  datatype LoadResult = Loaded(view: ConfigView) | LoadThrew

  /** Config.GetConfig as the entry point sees it: the settings of the file are loaded, a
      throw point of the loader becomes an exception, and otherwise the query, the repaired
      range and the signal names are what the validation and the query read. */
  function LoadView(settings: map<string, string>, fromClock: TimeExpression.Clock, toClock: TimeExpression.Clock,
                    tryParse: string -> Option<Instant>): LoadResult {
    var range := ConfigFile.RepairRange(ConfigFile.ConfiguredRange(settings, fromClock, toClock, tryParse));
    if "Query" !in settings || range.Threw? then LoadThrew
    else Loaded(ConfigView(Some(ConfigFile.SanitizeQuery(settings["Query"])), range.value.from, range.value.to,
                           ConfigFile.GetSignals(ConfigFile.Setting(settings, "Signal"))))
  }

  /** Config.GetConfig(path): switches to the file and loads it into the static
      configuration, which the result then reflects. */
  method GetConfig(config: ConfigFile.Config, path: string, settings: map<string, string>,
                   fromClock: TimeExpression.Clock, toClock: TimeExpression.Clock,
                   tryParse: string -> Option<Instant>,
                   entry: ConfigFile.EntryAssembly, executing: ConfigFile.ExecutingAssembly)
    returns (result: LoadResult)
    modifies config
    ensures result == LoadView(settings, fromClock, toClock, tryParse)
    ensures result.Loaded? ==>
      && config.configPath == Some(path) && config.query == result.view.query
      && config.timeFrom == result.view.timeFrom && config.timeTo == result.view.timeTo
      && config.signal == Some(result.view.signal)
  {
    var loaded := config.LoadConfigFile(Some(path), settings, fromClock, toClock, tryParse, entry, executing);
    if !loaded {
      return LoadThrew;
    }
    return Loaded(ConfigView(config.query, config.timeFrom, config.timeTo, config.signal.value));
  }

  /** The validation exits after a load, in their order. */
  function Validate(view: ConfigView): (r: Option<ExitCode>)
    ensures r == Some(NoQuery) <==> ConfigFile.IsNullOrEmpty(view.query)
    ensures r == Some(TimeFromInvalid) <==> !ConfigFile.IsNullOrEmpty(view.query) && view.timeFrom.None?
    ensures r == Some(TimeToInvalid) <==>
      !ConfigFile.IsNullOrEmpty(view.query) && view.timeFrom.Some? && view.timeTo.None?
    ensures r.None? <==> !ConfigFile.IsNullOrEmpty(view.query) && view.timeFrom.Some? && view.timeTo.Some?
  {
    if ConfigFile.IsNullOrEmpty(view.query) then Some(NoQuery)
    else if view.timeFrom.None? then Some(TimeFromInvalid)
    else if view.timeTo.None? then Some(TimeToInvalid)
    else None
  }

  /** What the validation of a loaded file comes down to: NoQuery exactly for a query that
      is empty once sanitised, TimeFromInvalid or TimeToInvalid exactly for an end that does
      not resolve (the repair never loses an end), and a missing TimeFrom setting always
      fails once the query is there. */
  lemma LoadedValidation(settings: map<string, string>, fromClock: TimeExpression.Clock,
                         toClock: TimeExpression.Clock, tryParse: string -> Option<Instant>)
    requires LoadView(settings, fromClock, toClock, tryParse).Loaded?
    ensures var v := LoadView(settings, fromClock, toClock, tryParse).view;
      var from := TimeExpression.ParseDateTime(ConfigFile.Setting(settings, "TimeFrom"), fromClock, tryParse);
      && (Validate(v) == Some(NoQuery) <==> ConfigFile.SanitizeQuery(settings["Query"]) == "")
      && (v.timeFrom.None? <==> from.None?)
      && v.timeTo == TimeExpression.ParseDateTime(ConfigFile.Setting(settings, "TimeTo"), toClock, tryParse)
      && ("TimeFrom" !in settings && ConfigFile.SanitizeQuery(settings["Query"]) != "" ==>
            Validate(v) == Some(TimeFromInvalid))
  {
    TimeExpression.NowAndEmpty("", fromClock, tryParse);
  }

  /** arg.StartsWith("-config", CurrentCultureIgnoreCase). */
  predicate IsConfigArgument(arg: string) {
    StartsWithIgnoreCase(arg, "-config")
  }

  /** A -config argument without '=': indexing the second piece of its split throws. */
  predicate IsMalformed(arg: string) {
    IsConfigArgument(arg) && |Split(arg, '=')| < 2
  }

  /** The path of a -config argument: the text between its first and second '='. */
  function PathOf(arg: string): string
    requires |Split(arg, '=')| >= 2
  {
    Split(arg, '=')[1]
  }

  /** A -config argument whose path is non-empty and names an existing file. */
  predicate IsAccepted(arg: string, isFile: string -> bool) {
    IsConfigArgument(arg) && |Split(arg, '=')| >= 2 && PathOf(arg) != "" && isFile(PathOf(arg))
  }

  /** How Main's scan of the arguments ends. */
  datatype Startup = Proceed(view: ConfigView) | Exit(code: ExitCode) | Crash

  /** The scan of the remaining arguments, given the configuration loaded so far: every
      accepted argument loads its file again and validates it; the first failed validation
      exits; without any accepted argument the run ends with NoConfig. */
  function ScanArguments(args: seq<string>, isFile: string -> bool, load: string -> LoadResult,
                         loaded: Option<ConfigView>): Startup
    decreases |args|
  {
    if args == [] then
      if loaded.None? then Exit(NoConfig) else Proceed(loaded.value)
    else if !IsConfigArgument(args[0]) then ScanArguments(args[1..], isFile, load, loaded)
    else if IsMalformed(args[0]) then Crash
    else if !IsAccepted(args[0], isFile) then ScanArguments(args[1..], isFile, load, loaded)
    else match load(PathOf(args[0]))
      case LoadThrew => Crash
      case Loaded(view) =>
        match Validate(view)
        case Some(code) => Exit(code)
        case None => ScanArguments(args[1..], isFile, load, Some(view))
  }

  /** The foreach over the arguments in Main, up to the NoConfig exit. */
  method SelectConfig(args: seq<string>, isFile: string -> bool, load: string -> LoadResult)
    returns (outcome: Startup)
    ensures outcome == ScanArguments(args, isFile, load, None)
  {
    var isConfig := false;
    var current: Option<ConfigView> := None;
    var i := 0;
    while i < |args|
      invariant 0 <= i <= |args|
      invariant isConfig <==> current.Some?
      invariant ScanArguments(args, isFile, load, None) == ScanArguments(args[i..], isFile, load, current)
    {
      var arg := args[i];
      assert args[i..][1..] == args[i + 1..];
      if IsConfigArgument(arg) {
        var configPath := Split(arg, '=');
        if |configPath| < 2 {
          return Crash;
        }
        if configPath[1] != "" && isFile(configPath[1]) {
          isConfig := true;
          match load(configPath[1]) {
            case LoadThrew =>
              return Crash;
            case Loaded(view) =>
              current := Some(view);
              var failed := Validate(view);
              if failed.Some? {
                return Exit(failed.value);
              }
          }
        }
      }
      i := i + 1;
    }
    if !isConfig {
      return Exit(NoConfig);
    }
    return Proceed(current.value);
  }

  /** Without an accepted or malformed argument the scan ends as it started: with NoConfig
      when nothing was loaded before. */
  lemma {:induction false} NoAcceptedArgument(args: seq<string>, isFile: string -> bool,
                                               load: string -> LoadResult, loaded: Option<ConfigView>)
    requires forall i :: 0 <= i < |args| ==> !IsAccepted(args[i], isFile) && !IsMalformed(args[i])
    ensures ScanArguments(args, isFile, load, loaded)
         == if loaded.None? then Exit(NoConfig) else Proceed(loaded.value)
    decreases |args|
  {
    if args != [] {
      assert !IsAccepted(args[0], isFile) && !IsMalformed(args[0]);
      NoAcceptedArgument(args[1..], isFile, load, loaded);
    }
  }

  /** A -config argument without '=' crashes the run when no accepted argument comes first. */
  lemma {:induction false} MalformedArgumentCrashes(args: seq<string>, k: nat, isFile: string -> bool,
                                                    load: string -> LoadResult, loaded: Option<ConfigView>)
    requires k < |args| && IsMalformed(args[k])
    requires forall i :: 0 <= i < k ==> !IsAccepted(args[i], isFile) && !IsMalformed(args[i])
    ensures ScanArguments(args, isFile, load, loaded) == Crash
    decreases k
  {
    if k > 0 {
      assert !IsAccepted(args[0], isFile) && !IsMalformed(args[0]);
      MalformedArgumentCrashes(args[1..], k - 1, isFile, load, loaded);
    }
  }

  /** A run proceeds only with the configuration of the LAST accepted argument, which
      loaded and passed validation. */
  lemma {:induction false} ProceedUsesLastAccepted(args: seq<string>, isFile: string -> bool,
                                                   load: string -> LoadResult, view: ConfigView)
    requires ScanArguments(args, isFile, load, None) == Proceed(view)
    ensures exists k :: (0 <= k < |args| && IsAccepted(args[k], isFile)
      && load(PathOf(args[k])) == Loaded(view) && Validate(view).None?
      && forall j :: k < j < |args| ==> !IsAccepted(args[j], isFile))
  {
    ProceedFrom(args, isFile, load, None, view);
    var k :| LastAccepted(args, isFile, load, view, k);
  }

  /** No argument after index k is accepted. */
  predicate NoneAcceptedAfter(args: seq<string>, isFile: string -> bool, k: int) {
    forall j :: 0 <= j < |args| && k < j ==> !IsAccepted(args[j], isFile)
  }

  /** Argument k is the last accepted one, and its file loaded as view and passed. */
  predicate LastAccepted(args: seq<string>, isFile: string -> bool, load: string -> LoadResult,
                         view: ConfigView, k: int) {
    && 0 <= k < |args| && IsAccepted(args[k], isFile)
    && load(PathOf(args[k])) == Loaded(view) && Validate(view).None?
    && NoneAcceptedAfter(args, isFile, k)
  }

  lemma {:induction false} ProceedFrom(args: seq<string>, isFile: string -> bool, load: string -> LoadResult,
                                       loaded: Option<ConfigView>, view: ConfigView)
    requires ScanArguments(args, isFile, load, loaded) == Proceed(view)
    ensures (loaded == Some(view) && NoneAcceptedAfter(args, isFile, -1))
      || exists k :: LastAccepted(args, isFile, load, view, k)
    decreases |args|
  {
    if args != [] {
      var rest := args[1..];
      var next := if IsAccepted(args[0], isFile) then Some(load(PathOf(args[0])).view) else loaded;
      assert ScanArguments(rest, isFile, load, next) == Proceed(view);
      ProceedFrom(rest, isFile, load, next, view);
      if next == Some(view) && NoneAcceptedAfter(rest, isFile, -1) {
        ShiftNoneAccepted(args, isFile, -1);
        if IsAccepted(args[0], isFile) {
          assert LastAccepted(args, isFile, load, view, 0);
        }
      } else {
        var k :| LastAccepted(rest, isFile, load, view, k);
        ShiftLastAccepted(args, isFile, load, view, k);
      }
    }
  }

  lemma ShiftNoneAccepted(args: seq<string>, isFile: string -> bool, k: int)
    requires args != [] && -1 <= k && NoneAcceptedAfter(args[1..], isFile, k)
    ensures NoneAcceptedAfter(args, isFile, k + 1)
  {
    assert forall j :: k + 1 < j < |args| ==> args[j] == args[1..][j - 1];
  }

  lemma ShiftLastAccepted(args: seq<string>, isFile: string -> bool, load: string -> LoadResult,
                          view: ConfigView, k: int)
    requires args != [] && LastAccepted(args[1..], isFile, load, view, k)
    ensures LastAccepted(args, isFile, load, view, k + 1)
  {
    assert args[k + 1] == args[1..][k];
    ShiftNoneAccepted(args, isFile, k);
  }

  // ---------------------------------------------------------------- signals

  /** connection.Signals.FindAsync(name).Result: a signal whose id may be null, or an
      exception (caught and logged per signal). */
  datatype SignalLookup = Found(id: Option<string>) | LookupThrew

  /** The ids of the signals that were found with a non-null id, in configuration order. */
  function KeptIds(names: seq<string>, lookup: string -> SignalLookup): seq<string>
    decreases |names|
  {
    if names == [] then []
    else
      var last := names[|names| - 1];
      KeptIds(names[..|names| - 1], lookup)
      + match lookup(last) case Found(Some(id)) => [id] case _ => []
  }

  /** The foreach over Config.Signal that fills the list of signals. */
  method CollectSignals(names: seq<string>, lookup: string -> SignalLookup) returns (ids: seq<string>)
    ensures ids == KeptIds(names, lookup)
  {
    ids := [];
    for i := 0 to |names|
      invariant ids == KeptIds(names[..i], lookup)
    {
      assert names[..i + 1][..i] == names[..i];
      match lookup(names[i]) {
        case Found(id) =>
          if id.Some? {
            ids := ids + [id.value];
          }
        case LookupThrew =>
      }
    }
    assert names[..|names|] == names;
  }

  /** Keeping distributes over concatenation: the kept ids of consecutive names come in
      the names' order. */
  lemma {:induction false} KeptIdsInOrder(a: seq<string>, b: seq<string>, lookup: string -> SignalLookup)
    ensures KeptIds(a + b, lookup) == KeptIds(a, lookup) + KeptIds(b, lookup)
    decreases |b|
  {
    if b == [] {
      assert a + b == a;
    } else {
      var b' := b[..|b| - 1];
      var last := b[|b| - 1];
      var tail := match lookup(last) case Found(Some(id)) => [id] case _ => [];
      assert (a + b)[..|a + b| - 1] == a + b';
      assert (a + b)[|a + b| - 1] == last;
      assert KeptIds(a + b, lookup) == KeptIds(a + b', lookup) + tail;
      assert KeptIds(b, lookup) == KeptIds(b', lookup) + tail;
      KeptIdsInOrder(a, b', lookup);
    }
  }

  /** An id is kept exactly when some configured name was found with that id. */
  lemma {:induction false} KeptIdsMembers(names: seq<string>, lookup: string -> SignalLookup, id: string)
    ensures id in KeptIds(names, lookup) <==> exists i :: 0 <= i < |names| && lookup(names[i]) == Found(Some(id))
    ensures |KeptIds(names, lookup)| <= |names|
    decreases |names|
  {
    if names != [] {
      var init := names[..|names| - 1];
      KeptIdsMembers(init, lookup, id);
      if exists i :: 0 <= i < |init| && lookup(init[i]) == Found(Some(id)) {
        var i :| 0 <= i < |init| && lookup(init[i]) == Found(Some(id));
        assert names[i] == init[i];
      }
      if exists i :: 0 <= i < |names| && lookup(names[i]) == Found(Some(id)) {
        var i :| 0 <= i < |names| && lookup(names[i]) == Found(Some(id));
        if i < |init| {
          assert init[i] == names[i];
        }
      }
    }
  }

  /** The signal expression of the query. */
  datatype SignalExpression = NoSignal | Signal(id: string) | Intersection(ids: seq<string>)

  /** The switch on the number of kept signals. */
  function FoldSignals(ids: seq<string>): SignalExpression {
    if |ids| == 0 then NoSignal
    else if |ids| == 1 then Signal(ids[0])
    else Intersection(ids)
  }

  /** The ids an expression restricts the query to. */
  function SignalIds(e: SignalExpression): seq<string> {
    match e
    case NoSignal => []
    case Signal(id) => [id]
    case Intersection(ids) => ids
  }

  /** The shapes the switch produces: an intersection has at least two ids. */
  predicate IsFolded(e: SignalExpression) {
    e.Intersection? ==> |e.ids| >= 2
  }

  /** Folding loses no id and keeps their order, and every folded shape comes from its ids;
      only an empty list queries without a signal expression. */
  lemma FoldSignalsRoundTrip(ids: seq<string>, e: SignalExpression)
    ensures IsFolded(FoldSignals(ids)) && SignalIds(FoldSignals(ids)) == ids
    ensures IsFolded(e) ==> FoldSignals(SignalIds(e)) == e
    ensures FoldSignals(ids).NoSignal? <==> ids == []
  {
    if e.Signal? {
      assert SignalIds(e) == [e.id];
    }
  }

  // ---------------------------------------------------------------- proxy bypass list

  /** The pieces that are not empty, in order (StringSplitOptions.RemoveEmptyEntries). */
  function NonEmpty(pieces: seq<string>): (r: seq<string>)
    ensures |r| <= |pieces|
    ensures forall x :: x in r <==> x in pieces && x != ""
  {
    if pieces == [] then []
    else (if pieces[0] == "" then [] else [pieces[0]]) + NonEmpty(pieces[1..])
  }

  /** Config.ProxyBypass.Split(',', RemoveEmptyEntries).Select(Trim): empty pieces are
      dropped BEFORE trimming; a null setting throws. */
  function BypassList(proxyBypass: Option<string>): Try<seq<string>> {
    match proxyBypass
    case None => Threw
    case Some(text) => Ok(TrimEach(NonEmpty(Split(text, ','))))
  }

  /** An empty bypass entry comes exactly from a non-empty piece of white space alone, and
      every entry is trimmed and free of commas. */
  lemma BypassListEntries(text: string)
    ensures var r := BypassList(Some(text)).value;
      && (forall i :: 0 <= i < |r| ==> IsTrimmedWith(r[i], AnyWhite) && ',' !in r[i])
      && ("" in r <==> exists p :: p in Split(text, ',') && p != "" && AllWhite(p, AnyWhite))
  {
    BypassEntriesTrimmed(text);
    BypassBlankFromWhite(text);
    BypassWhiteGivesBlank(text);
  }

  lemma BypassEntriesTrimmed(text: string)
    ensures var r := BypassList(Some(text)).value;
      forall i :: 0 <= i < |r| ==> IsTrimmedWith(r[i], AnyWhite) && ',' !in r[i]
  {
    var q := NonEmpty(Split(text, ','));
    var r := TrimEach(q);
    forall i | 0 <= i < |r| ensures ',' !in r[i] {
      assert q[i] in q;
      ConfigFile.TrimKeepsOut(q[i], ',');
    }
  }

  lemma BypassBlankFromWhite(text: string)
    ensures "" in BypassList(Some(text)).value ==>
      exists p :: p in Split(text, ',') && p != "" && AllWhite(p, AnyWhite)
  {
    var q := NonEmpty(Split(text, ','));
    var r := TrimEach(q);
    if "" in r {
      var i :| 0 <= i < |r| && r[i] == "";
      assert q[i] in q;
    }
  }

  lemma BypassWhiteGivesBlank(text: string)
    ensures (exists p :: p in Split(text, ',') && p != "" && AllWhite(p, AnyWhite)) ==>
      "" in BypassList(Some(text)).value
  {
    var q := NonEmpty(Split(text, ','));
    if exists p :: p in Split(text, ',') && p != "" && AllWhite(p, AnyWhite) {
      var p :| p in Split(text, ',') && p != "" && AllWhite(p, AnyWhite);
      assert p in q;
      var i :| 0 <= i < |q| && q[i] == p;
      assert TrimEach(q)[i] == "";
    }
  }

  /** In "x,b,y," a blank piece b is kept as "" while the empty last piece is dropped;
      a null setting throws. */
  lemma BypassListKeepsBlankEntries(x: string, b: string, y: string)
    requires x != "" && y != "" && b != "" && AllWhite(b, AnyWhite)
    requires ',' !in x && ',' !in b && ',' !in y
    ensures BypassList(Some(x + "," + b + "," + y + ",")) == Ok([Trim(x), "", Trim(y)])
    ensures BypassList(None) == Threw
  {
    var pieces := [x, b, y, ""];
    FourPiecesJoin(x, b, y);
    SplitJoin(pieces, ',');
    NonEmptyDropsLast(x, b, y);
    TrimBlankMiddle(x, b, y);
  }

  lemma FourPiecesJoin(x: string, b: string, y: string)
    ensures Join([x, b, y, ""], ',') == x + "," + b + "," + y + ","
  {
    var pieces := [x, b, y, ""];
    assert pieces[1..] == [b, y, ""] && pieces[1..][1..] == [y, ""] && pieces[1..][1..][1..] == [""];
    var j3 := Join(pieces[1..][1..][1..], ',');
    assert j3 == [];
    var j2 := Join(pieces[1..][1..], ',');
    assert j2 == y + [','] + j3;
    var j1 := Join(pieces[1..], ',');
    assert j1 == b + [','] + j2;
    assert Join(pieces, ',') == x + [','] + j1;
    assert x + [','] + (b + [','] + (y + [','] + [])) == x + "," + b + "," + y + ",";
  }

  lemma NonEmptyDropsLast(x: string, b: string, y: string)
    requires x != "" && b != "" && y != ""
    ensures NonEmpty([x, b, y, ""]) == [x, b, y]
  {
    var pieces := [x, b, y, ""];
    assert pieces[1..] == [b, y, ""] && pieces[1..][1..] == [y, ""] && pieces[1..][1..][1..] == [""];
    assert NonEmpty(pieces[1..][1..][1..]) == [];
    assert NonEmpty(pieces[1..][1..]) == [y];
  }

  lemma TrimBlankMiddle(x: string, b: string, y: string)
    requires AllWhite(b, AnyWhite)
    ensures TrimEach([x, b, y]) == [Trim(x), "", Trim(y)]
  {
    TrimEachThree(x, b, y);
    assert Trim(b) == "";
  }

  /** Without empty pieces the bypass list is the signal rule: split and trim. */
  lemma BypassListMatchesSignalsWithoutEmptyPieces(text: string)
    requires text != ""
    requires forall i :: 0 <= i < |Split(text, ',')| ==> Split(text, ',')[i] != ""
    ensures BypassList(Some(text)) == Ok(ConfigFile.GetSignals(Some(text)))
  {
    NonEmptyKeepsAll(Split(text, ','));
  }

  lemma {:induction false} NonEmptyKeepsAll(pieces: seq<string>)
    requires forall i :: 0 <= i < |pieces| ==> pieces[i] != ""
    ensures NonEmpty(pieces) == pieces
    decreases |pieces|
  {
    if pieces != [] {
      NonEmptyKeepsAll(pieces[1..]);
    }
  }

  // ---------------------------------------------------------------- query and delivery

  /** The query: an exception, or an answer with an error text, columns and rows. */
  datatype QueryResult = QueryThrew | Answered(error: Option<string>, columns: seq<string>, rows: seq<seq<string>>)

  datatype Destination = Email | Jira | EmailAndJira

  predicate SendsToJira(d: Destination) {
    d == Jira || d == EmailAndJira
  }

  predicate SendsByEmail(d: Destination) {
    d == Email || d == EmailAndJira
  }

  /** The proxy settings: UseProxy, whether ProxyServer parses as a Uri, and ProxyBypass. */
  datatype ProxySettings = ProxySettings(useProxy: bool, serverIsUri: bool, bypass: Option<string>)

  /** The connection's handler callback, run when the connection is built and outside every
      try block: with a proxy it parses the server address and then splits the bypass list. */
  predicate ConnectionThrows(proxy: ProxySettings) {
    proxy.useProxy && (!proxy.serverIsUri || BypassList(proxy.bypass).Threw?)
  }

  /** How the steps after a non-empty answer go: the temp file name (None where
      Path.GetTempFileName throws), whether the CSV writer got through, and whether Jira
      and email delivery got through. */
  datatype Delivery = Delivery(tempFile: Option<string>, csvWritten: bool, jiraSent: bool, mailSent: bool)

  /** The arguments of the ExitApp call that ends the run. */
  datatype ExitCall = ExitCall(code: ExitCode, tempFile: Option<string>)

  /** The query and delivery part of Main: the first failing step names the exit code, and
      every exit after the temp file exists passes it for cleanup. The Jira branch runs
      first, and its proxy bypass list is split outside its own try block, so a null
      setting is reported as a CSV error. */
  function Report(result: QueryResult, proxy: ProxySettings, destination: Destination, delivery: Delivery): ExitCall {
    match result
    case QueryThrew => ExitCall(QueryError, None)
    case Answered(error, _, rows) =>
      if !ConfigFile.IsNullOrEmpty(error) then ExitCall(QueryError, None)
      else if |rows| == 0 then ExitCall(NoDataReturned, None)
      else match delivery.tempFile
        case None => ExitCall(TempFileError, None)
        case Some(path) =>
          if !delivery.csvWritten then ExitCall(ErrorWritingCsv, Some(path))
          else if SendsToJira(destination) && proxy.useProxy && BypassList(proxy.bypass).Threw? then
            ExitCall(ErrorWritingCsv, Some(path))
          else if SendsToJira(destination) && !delivery.jiraSent then ExitCall(JiraError, Some(path))
          else if SendsByEmail(destination) && !delivery.mailSent then ExitCall(MailError, Some(path))
          else ExitCall(Success, Some(path))
  }

  /** The CSV the writer receives: the header, then every row in order; and the number of
      records counted on the way, which the Jira description reports. */
  method WriteRecords(columns: seq<string>, rows: seq<seq<string>>) returns (records: seq<seq<string>>, recordCount: nat)
    ensures records == [columns] + rows
    ensures recordCount == |rows| == |records| - 1
  {
    records := [columns];
    recordCount := 0;
    for i := 0 to |rows|
      invariant records == [columns] + rows[..i]
      invariant recordCount == i
    {
      recordCount := recordCount + 1;
      records := records + [rows[i]];
      assert rows[..i + 1] == rows[..i] + [rows[i]];
    }
    assert rows[..|rows|] == rows;
  }

  /** The query outcomes: an exception or an error text ends with QueryError, an empty
      answer with NoDataReturned, and neither hands a temp file to ExitApp. */
  lemma QueryOutcomes(result: QueryResult, proxy: ProxySettings, destination: Destination, delivery: Delivery)
    ensures result.QueryThrew? ==> Report(result, proxy, destination, delivery) == ExitCall(QueryError, None)
    ensures result.Answered? && !ConfigFile.IsNullOrEmpty(result.error) ==>
      Report(result, proxy, destination, delivery) == ExitCall(QueryError, None)
    ensures result.Answered? && ConfigFile.IsNullOrEmpty(result.error) && result.rows == [] ==>
      Report(result, proxy, destination, delivery) == ExitCall(NoDataReturned, None)
    ensures Report(result, proxy, destination, delivery).code != NothingDone
  {
  }

  /** Delivery by destination: Jira is used exactly for Jira and EmailAndJira and is tried
      first; email exactly for Email and EmailAndJira; a run succeeds only when every
      channel its destination asks for got through, and every exit after the temp file
      was created hands it to ExitApp. */
  lemma DeliveryByDestination(result: QueryResult, proxy: ProxySettings, destination: Destination, delivery: Delivery)
    requires result.Answered? && ConfigFile.IsNullOrEmpty(result.error) && result.rows != []
    requires delivery.tempFile.Some? && delivery.csvWritten
    ensures var call := Report(result, proxy, destination, delivery);
      && (call.code == JiraError <==>
            SendsToJira(destination) && !(proxy.useProxy && proxy.bypass.None?) && !delivery.jiraSent)
      && (call.code == MailError ==> SendsByEmail(destination) && !delivery.mailSent)
      && (destination == Email ==> call.code in {Success, MailError})
      && (call.code == Success <==>
            (SendsToJira(destination) ==> !(proxy.useProxy && proxy.bypass.None?) && delivery.jiraSent)
            && (SendsByEmail(destination) ==> delivery.mailSent))
      && call.tempFile == delivery.tempFile
  {
  }

  // ---------------------------------------------------------------- the whole run

  /** How a run ends: through ExitApp, or with an exception nothing catches. */
  datatype Outcome = Exited(call: ExitCall) | Crashed

  /** The environment of one run: file existence, configuration loads, the proxy settings
      the connection reads, the signal lookups, the query (given the signal expression),
      the destination and the delivery steps. */
  datatype Environment = Environment(
    isFile: string -> bool, load: string -> LoadResult,
    proxy: ProxySettings,
    lookup: string -> SignalLookup, query: SignalExpression -> QueryResult,
    destination: Destination, delivery: Delivery)

  /** Main from the argument scan to the final ExitApp. The connection's handler callback
      splits the bypass list when the connection is built, outside every try block. */
  function RunOutcome(args: seq<string>, env: Environment): Outcome {
    match ScanArguments(args, env.isFile, env.load, None)
    case Crash => Crashed
    case Exit(code) => Exited(ExitCall(code, None))
    case Proceed(view) =>
      if ConnectionThrows(env.proxy) then Crashed
      else
        var expression := FoldSignals(KeptIds(view.signal, env.lookup));
        Exited(Report(env.query(expression), env.proxy, env.destination, env.delivery))
  }

  /** Main's steps, with its two loops. */
  method Run(args: seq<string>, env: Environment) returns (outcome: Outcome)
    ensures outcome == RunOutcome(args, env)
  {
    var startup := SelectConfig(args, env.isFile, env.load);
    match startup {
      case Crash =>
        return Crashed;
      case Exit(code) =>
        return Exited(ExitCall(code, None));
      case Proceed(view) =>
        if ConnectionThrows(env.proxy) {
          return Crashed;
        }
        var ids := CollectSignals(view.signal, env.lookup);
        var expression := FoldSignals(ids);
        return Exited(Report(env.query(expression), env.proxy, env.destination, env.delivery));
    }
  }

  /** A run that gets past the connection never fails on the Jira branch's own bypass
      split: a CSV error then always means the writer failed. A run succeeds exactly when
      the answer has rows, the temp file and the CSV were made and every channel of the
      destination got through. */
  lemma RunDelivery(args: seq<string>, env: Environment)
    requires ScanArguments(args, env.isFile, env.load, None).Proceed?
    ensures RunOutcome(args, env).Exited? <==> !ConnectionThrows(env.proxy)
    ensures RunOutcome(args, env).Exited? && RunOutcome(args, env).call.code == ErrorWritingCsv ==>
      !env.delivery.csvWritten
    ensures RunOutcome(args, env).Exited? ==>
      var view := ScanArguments(args, env.isFile, env.load, None).view;
      var result := env.query(FoldSignals(KeptIds(view.signal, env.lookup)));
      (RunOutcome(args, env).call.code == Success <==>
        && result.Answered? && ConfigFile.IsNullOrEmpty(result.error) && result.rows != []
        && env.delivery.tempFile.Some? && env.delivery.csvWritten
        && (SendsToJira(env.destination) ==> env.delivery.jiraSent)
        && (SendsByEmail(env.destination) ==> env.delivery.mailSent))
  {
  }

  /** No run ends with NothingDone: every path through Main calls ExitApp earlier. A run
      that proceeds logs at Information only on Success, and its exit status is 0 exactly
      then when the unlisted codes are not 0. */
  lemma RunExits(args: seq<string>, env: Environment, unlisted: UnlistedValues)
    requires unlisted.jiraError != 0 && unlisted.tempFileError != 0
    ensures RunOutcome(args, env).Exited? ==> RunOutcome(args, env).call.code != NothingDone
    ensures RunOutcome(args, env).Exited? ==>
      var call := RunOutcome(args, env).call;
      ExitApp(call.code, call.tempFile, unlisted).status == 0 <==> call.code == Success
  {
    if RunOutcome(args, env).Exited? {
      var call := RunOutcome(args, env).call;
      if call.code != Success && IsListed(call.code) {
        ListedValuesDistinct(call.code, Success, unlisted);
      }
      match ScanArguments(args, env.isFile, env.load, None)
      case Crash =>
      case Exit(code) =>
        assert code != NothingDone && code != JiraError && code != TempFileError by {
          ScanExitCodes(args, env.isFile, env.load, None);
        }
      case Proceed(view) =>
    }
  }

  /** The scan ends only with NoConfig or a validation code. */
  lemma {:induction false} ScanExitCodes(args: seq<string>, isFile: string -> bool, load: string -> LoadResult,
                                         loaded: Option<ConfigView>)
    ensures ScanArguments(args, isFile, load, loaded).Exit? ==>
      ScanArguments(args, isFile, load, loaded).code in {NoConfig, NoQuery, TimeFromInvalid, TimeToInvalid}
    decreases |args|
  {
    if args != [] {
      ScanExitCodes(args[1..], isFile, load, loaded);
      if IsAccepted(args[0], isFile) && load(PathOf(args[0])).Loaded? {
        ScanExitCodes(args[1..], isFile, load, Some(load(PathOf(args[0])).view));
      }
    }
  }
}
