# Seq.Client.Reporter in Dafny

Seq.Client.Reporter is a command-line tool. It loads a report configuration, resolves the
report's time range from short time expressions, runs a Seq query (optionally limited by
signals), writes the answer to a temporary CSV file, sends the file to Jira and/or by
email, and exits with a numeric status. This project models two parts of it and proves
properties of the model:

- the configuration loader: resolving time expressions (`now`, `H:mm[:ss]`, `<n><unit>`,
  `<n><unit> H:mm[:ss]`, then a culture date), the range repair, query sanitising, the
  query timeout quirks, signal lists and integer settings;
- the decisions of the entry point: which `-config=<path>` argument is used, the order of
  the validation exits, which signals restrict the query, how the query and delivery end,
  what the exit routine does, and how the proxy bypass list is split.

Files (each one module):

| file | module | content |
|---|---|---|
| `wrappers.dfy` | `Wrappers` | `Option`; `Try`, where `Threw` stands for a .NET exception |
| `text.dfy` | `Text` | `String.Split`/`Join`, `Trim`, `Replace(p, "")`, `Int32.TryParse`, Int32 wrap-around |
| `calendar.dfy` | `Calendar` | instants as whole seconds since 0001-01-01, the Gregorian calendar, `AddSeconds`…`AddMonths`, UTC/local conversion |
| `time_expression.dfy` | `TimeExpression` | `ParseDateTime`, `ParseDateExpression`, `ParseTimeString` and the three patterns |
| `config.dfy` | `ConfigFile` | `GetSignals`, `GetInt`, query sanitising, range repair, report identity, class `Config` with `LoadConfigFile` |
| `program.dfy` | `Reporter` | exit codes, `ExitApp`, the argument scan, signal collection and folding, query and delivery outcomes, proxy bypass list, the whole run |

Modelling conventions:

- An instant is a whole number of seconds since 0001-01-01 00:00, limited to the .NET
  `DateTime` range. The `AddX` methods give `None` where .NET throws. `ToUniversalTime` and
  `ToLocalTime` clamp to the range, as .NET does, with one fixed UTC offset.
- The clock is a value `Clock(now, parseDate, utcOffset)`. `now` is `DateTime.Now`.
  `parseDate` is the date that `DateTime.ParseExact` puts on a time-only text; with
  `DateTimeStyles.None` that is the current date. `utcOffset` is the local offset in seconds.
  The two ends of the range are resolved with separate clocks, because the loader reads the
  clock once for each end.
- `DateTime.TryParse` with culture rules is a parameter `tryParse`.
- Every network, file-system and library call of the entry point is an input. These are
  `File.Exists`, `Config.GetConfig`, the signal lookup, the query, `Path.GetTempFileName`,
  the CSV writer, Jira and email. They appear in `Reporter.Environment`. `Reporter.LoadView`
  fixes what a load yields, and `Reporter.GetConfig` proves that the `Config` class produces
  exactly that.
- `ExitApp` never returns, because it calls `Environment.Exit`. So the model ends a run at the
  first `ExitApp` call. An exception that nothing catches is `Crash`/`Crashed`.
- The numeric values of `JiraError`, `TempFileError` and `NothingDone` are the parameter
  `Reporter.UnlistedValues`. The entry point uses these three codes, but `ExitCodes.cs` does
  not declare them.

Behaviours of the code worth noting:

- **Time-only texts.** `ParseExact` with `DateTimeStyles.None` anchors a text holding only
  a time of day to the current date. The model keeps that date as the input `parseDate`.
- **Range repair.** On a non-increasing range the repair moves the START back one day
  (`TimeFrom.AddDays(-1)`). So the repaired range is not always increasing (`ConfigFile.RepairRangeCanLeaveStartAfterEnd`). Take
  `TimeFrom = now` and `TimeTo = 1d` resolved in the same second: the range collapses to an
  empty one (`ConfigFile.NowToOneDayCollapses`). The repair also throws when the start is
  within the first day of the calendar.
- **Query timeout.** `QueryTimeout` is read from the `Query` setting. It is clamped to at
  least 1 only on the fall-back path of the assembly lookup.
- **Week step.** The resolver steps back `7 * time` days computed in unchecked Int32, as the
  code does (`TimeExpression.ParseDateExpressionAsWritten`), so a large week count can wrap
  into the future (`TimeExpression.RelativeWeeksWrap`). The exact step
  `TimeExpression.ParseDateExpression` is the corrected definition of the finding below; the
  two agree for every count up to 306783378 (`TimeExpression.AsWrittenAgreesWithoutOverflow`).

## Model

| member | source | states |
|---|---|---|
| `Text.JoinSplit` | Seq.Client.Reporter/Config.cs:88 | splitting on a character loses nothing: joining the pieces with it gives the text back |
| `Text.SplitJoin` | Seq.Client.Reporter/Program.cs:35 | splitting a join of separator-free pieces gives exactly those pieces, empty ones included |
| `Text.TrimWith` | Seq.Client.Reporter/Config.cs:88 | the trim removes exactly the leading and trailing white space: the result is a slice of the input, all white space around it, trimmed itself, and empty iff the input is all white |
| `Text.TrimIdempotent` | Seq.Client.Reporter/Config.cs:88 | trimming twice is trimming once |
| `Text.RemoveAllUnchangedIff` | Seq.Client.Reporter/Config.cs:43 | `Replace(p, "")` leaves a text alone iff `p` does not occur in it, and otherwise shortens it |
| `Text.TryParseInt32` | Seq.Client.Reporter/Config.cs:204 | a parsed value is always within Int32 |
| `Text.ParseFormatInt` | Seq.Client.Reporter/Config.cs:204 | `Int32.TryParse` gives back every Int32 written in decimal |
| `Text.ParseNegative` | Seq.Client.Reporter/Config.cs:204 | a minus sign before a digit run parses to the negated value iff it is at least Int32.MinValue, and fails otherwise |
| `Calendar.AddMonthsSteps` | Seq.Client.Reporter/Config.cs:167-168 | `AddMonths` lands exactly that many calendar months away, on the same day or the last day of a shorter month, at the same time of day, and fails exactly outside the calendar or beyond 120000 months |
| `Calendar.AddMonthsBackward` | Seq.Client.Reporter/Config.cs:167-168 | a negative month step lands strictly earlier and a zero step changes nothing |
| `Calendar.ToLocalUndoesToUniversal` | Seq.Client.Reporter/Config.cs:134-137 | converting a hybrid anchor to UTC and back to local time gives the anchor back when nothing clamps |
| `TimeExpression.ClockFields` | Seq.Client.Reporter/Config.cs:113 | every text matching the clock-time pattern has hour ≤ 23, minute ≤ 59, second ≤ 59 |
| `TimeExpression.ClockTimeParses` | Seq.Client.Reporter/Config.cs:174-189 | every clock-time text is accepted by `ParseTimeString` (by `H:mm:ss` or `H:mm`) and yields the parse date at its fields, converted to UTC |
| `TimeExpression.ClockTimeAccepts` | Seq.Client.Reporter/Config.cs:113 | every valid time, written with or without a padded hour and seconds, matches the pattern and reads back as the same fields |
| `TimeExpression.OutOfRangeClockTimes` | Seq.Client.Reporter/Config.cs:113 | "25:00", "12:60", "24:00:00", "123:00", "12:5" and ":30" do not match |
| `TimeExpression.MatchRelative` | Seq.Client.Reporter/Config.cs:121-122 | a match splits the text into a non-empty digit run and one unit letter |
| `TimeExpression.MatchRelativeAccepts` | Seq.Client.Reporter/Config.cs:121-122 | every digit run followed by a unit letter matches, with exactly those parts |
| `TimeExpression.MatchHybridSound` | Seq.Client.Reporter/Config.cs:129-131 | a match splits the text into digits, a unit, non-empty white space and a clock time |
| `TimeExpression.MatchHybridAccepts` | Seq.Client.Reporter/Config.cs:129-131 | every such composition matches, with exactly those parts |
| `TimeExpression.PatternsDisjoint` | Seq.Client.Reporter/Config.cs:109-131 | "now", clock times, relative offsets and hybrids are pairwise exclusive, so the order of the tests decides nothing |
| `TimeExpression.ParseDateExpressionUnits` | Seq.Client.Reporter/Config.cs:153-172 | s, m, h, d, w step back by time × 1, 60, 3600, 86400, 604800 seconds, M steps back calendar months, any other unit gives null, all converted to UTC |
| `TimeExpression.NeverLaterThanStart` | Seq.Client.Reporter/Config.cs:153-172 | a non-negative offset never yields an instant after the start; offset 0 yields the start |
| `TimeExpression.WeekStepWrapsIntoTheFuture` | Seq.Client.Reporter/Config.cs:166 | as written, "613566756w" wraps `7 * time` in Int32 and lands four days AFTER the start; the exact week step is out of range |
| `TimeExpression.AsWrittenAgreesWithoutOverflow` | Seq.Client.Reporter/Config.cs:166 | for counts whose week step fits in Int32, the code as written and the exact step agree |
| `TimeExpression.RegexSubject` | Seq.Client.Reporter/Config.cs:113-131 | the text the anchored patterns see is a prefix of the setting (one final line feed dropped, as `$` allows) |
| `Text.ParseUnsigned` | Seq.Client.Reporter/Config.cs:125 | a digit run such as the count of a match parses to its value iff that fits in Int32, and fails otherwise (the `int.Parse` overflow that the resolver catches) |
| `TimeExpression.NowAndEmpty` | Seq.Client.Reporter/Config.cs:103-110 | null and empty settings give null; "now" in any case gives the current instant in UTC |
| `TimeExpression.ClockTimeRule` | Seq.Client.Reporter/Config.cs:113-118 | a clock-time setting resolves through `ParseTimeString` |
| `TimeExpression.RelativeRule` | Seq.Client.Reporter/Config.cs:121-126 | a relative setting resolves to the current local time stepped back by the code's step (the week product wrapping in Int32), or null when the count does not fit in Int32 |
| `TimeExpression.RelativeWeeksWrap` | Seq.Client.Reporter/Config.cs:121-126 | "613566756w" resolves to four days after now, in UTC, because the code's week product wraps to -4 |
| `TimeExpression.HybridRule` | Seq.Client.Reporter/Config.cs:129-139 | a hybrid setting steps back by the code's step (the week product wrapping in Int32) from the clock time on the parse date, taken back to local time, or gives null when the count does not fit in Int32 |
| `TimeExpression.FreeFormRule` | Seq.Client.Reporter/Config.cs:141-145 | a setting that matches no pattern is the culture parse of the whole text, converted to UTC, or null |
| `TimeExpression.FinalLineFeedIgnored` | Seq.Client.Reporter/Config.cs:113-131 | a single trailing line feed after a pattern text does not change the result |
| `TimeExpression.OnlyNowAndRelativeReadTheClock` | Seq.Client.Reporter/Config.cs:107-143 | only "now" and the relative rule depend on the current instant |
| `TimeExpression.OneDayBeforeNow` | Seq.Client.Reporter/Config.cs:121-126 | "1d" resolves to exactly one day before now, converted to UTC |
| `TimeExpression.OneDayBack` | Seq.Client.Reporter/Config.cs:121-126 | "1d" at 2024-01-02 10:00 (offset 0) resolves to 2024-01-01 10:00 |
| `TimeExpression.HybridSevenDaysBack` | Seq.Client.Reporter/Config.cs:129-139 | "7d 06:00" with parse date 2024-01-09 resolves to 2024-01-02 06:00 |
| `ConfigFile.GetSignalsPieces` | Seq.Client.Reporter/Config.cs:83-89 | null or empty gives no signals; otherwise one trimmed, comma-free signal per comma-separated piece, in order |
| `ConfigFile.GetSignalsOfJoin` | Seq.Client.Reporter/Config.cs:83-89 | comma-free pieces joined with commas come back as exactly those pieces, each trimmed |
| `ConfigFile.GetSignalsKeepsEmptyPieces` | Seq.Client.Reporter/Config.cs:83-89 | for comma-free x and y, "x,,y" gives trimmed x, "", trimmed y: an empty piece is kept as an empty signal; null and "" give no signals |
| `ConfigFile.GetIntRoundTrip` | Seq.Client.Reporter/Config.cs:198-207 | every Int32 text reads back as itself; DBNull, null, empty and unparsable text give -1 |
| `ConfigFile.SanitizeQueryUnchanged` | Seq.Client.Reporter/Config.cs:43 | the query is unchanged iff it holds neither a literal backslash-r nor backslash-n pair |
| `ConfigFile.SanitizeQuerySinglePass` | Seq.Client.Reporter/Config.cs:43 | one pass can leave a new backslash-r pair behind, and real line breaks stay |
| `ConfigFile.RepairRangeEffect` | Seq.Client.Reporter/Config.cs:47-49 | the repair fires only on a present, non-increasing range; it keeps the end, moves the start back exactly one day, throws iff the start is within the first day, and leaves the start before the end iff they were less than a day apart |
| `ConfigFile.RepairRangeCanLeaveStartAfterEnd` | Seq.Client.Reporter/Config.cs:47-49 | a start two days after the end is still one day after it once repaired |
| `ConfigFile.NowToOneDayCollapses` | Seq.Client.Reporter/Config.cs:45-49 | TimeFrom "now" and TimeTo "1d" less than a day apart give a repaired range whose start is at or before its end, equal exactly when both were resolved in the same second |
| `ConfigFile.IdentifyKeepsConfiguredName` | Seq.Client.Reporter/Config.cs:51-76 | a configured name survives; the executing assembly is consulted iff the entry assembly's version lookup throws, and then a version is always set |
| `ConfigFile.QueryTimeoutQuirks` | Seq.Client.Reporter/Config.cs:44-80 | an ordinary query text gives timeout -1 on the normal path; only the fall-back path raises it to at least 1; a numeric query text is its own timeout |
| `ConfigFile.Config.constructor` | Seq.Client.Reporter/Config.cs:16-23 | every property starts out null and the timeout zero |
| `ConfigFile.Config.LoadConfigFile` | Seq.Client.Reporter/Config.cs:39-81 | the loader succeeds iff the path is set, Query exists and the repair does not throw; it sets every property as the settings, clocks and assemblies dictate, and at each throw point only the properties assigned so far change |
| `ConfigFile.Config.LoadRange` | Seq.Client.Reporter/Config.cs:45-49 | the end is the resolved TimeTo; the start is the resolved TimeFrom, moved back one day by the repair when the range is present and not increasing; false iff that repair throws; no other property changes |
| `ConfigFile.Config.LookUpIdentity` | Seq.Client.Reporter/Config.cs:51-80 | the name and version are those of `Identify`, the timeout is clamped only on the fall-back path, and nothing else changes |
| `Reporter.ListedValuesDistinct` | Seq.Client.Reporter/ExitCodes.cs:3-15 | the declared codes have the distinct values 0 to 9, and only Success is 0 |
| `Reporter.ExitApp` | Seq.Client.Reporter/Program.cs:468-512 | Information level iff Success or NoConfig, the usage line iff NoConfig, the temp file is deleted iff it is non-empty, and the status is the code's value |
| `Reporter.GetConfig` | Seq.Client.Reporter/Config.cs:30-34 | loading a file through the `Config` class yields exactly `LoadView` of its settings, and the static properties then hold that view |
| `Reporter.Validate` | Seq.Client.Reporter/Program.cs:44-51 | NoQuery iff the query is null or empty, then TimeFromInvalid iff the start is null, then TimeToInvalid iff the end is null, and nothing otherwise |
| `Reporter.LoadedValidation` | Seq.Client.Reporter/Program.cs:40-51 | after a load, NoQuery iff the sanitised query is empty, the start is missing iff its expression does not resolve, the end is the resolved expression, and a missing TimeFrom setting always fails |
| `Reporter.SelectConfig` | Seq.Client.Reporter/Program.cs:32-59 | the argument loop ends exactly as the scan `ScanArguments` from an empty configuration |
| `Reporter.NoAcceptedArgument` | Seq.Client.Reporter/Program.cs:36-59 | without an accepted or malformed `-config` argument the run exits with NoConfig |
| `Reporter.MalformedArgumentCrashes` | Seq.Client.Reporter/Program.cs:34-36 | a `-config` argument without '=' crashes the run when no accepted argument precedes it |
| `Reporter.ProceedUsesLastAccepted` | Seq.Client.Reporter/Program.cs:32-59 | a run that proceeds uses the configuration of the last accepted argument, which loaded and passed validation |
| `Reporter.ScanExitCodes` | Seq.Client.Reporter/Program.cs:32-59 | the scan exits only with NoConfig, NoQuery, TimeFromInvalid or TimeToInvalid |
| `Reporter.CollectSignals` | Seq.Client.Reporter/Program.cs:109-128 | the loop keeps exactly the ids of the signals found with a non-null id, in configuration order (`KeptIds`) |
| `Reporter.KeptIdsMembers` | Seq.Client.Reporter/Program.cs:109-128 | an id is kept iff some configured name was found with it; never more ids than names |
| `Reporter.KeptIdsInOrder` | Seq.Client.Reporter/Program.cs:109-128 | the kept ids of consecutive name lists are concatenated in order |
| `Reporter.FoldSignalsRoundTrip` | Seq.Client.Reporter/Program.cs:130-143 | folding keeps every id in order and each folded shape comes from its ids; only no ids gives no signal expression |
| `Reporter.NonEmpty` | Seq.Client.Reporter/Program.cs:88 | dropping empty entries keeps exactly the non-empty pieces |
| `Reporter.BypassListEntries` | Seq.Client.Reporter/Program.cs:87-88 | every bypass entry is trimmed and free of commas, and an empty entry arises iff a non-empty piece is all white space |
| `Reporter.BypassListKeepsBlankEntries` | Seq.Client.Reporter/Program.cs:87-88 | for comma-free non-empty x and y and a blank b, "x,b,y," gives trimmed x, "", trimmed y: the blank piece stays as an empty entry and the empty last piece is dropped; a null setting throws |
| `Reporter.BypassListMatchesSignalsWithoutEmptyPieces` | Seq.Client.Reporter/Program.cs:205-207 | without empty pieces the bypass list is the signal rule of the loader |
| `Reporter.WriteRecords` | Seq.Client.Reporter/Program.cs:172-187 | the CSV is the header followed by every row in order, and the record count is the number of rows |
| `Reporter.QueryOutcomes` | Seq.Client.Reporter/Program.cs:157-163 | an exception or an error text (the query helper at Program.cs lines 363-372) gives QueryError and an empty answer NoDataReturned, neither with a temp file; no outcome is NothingDone |
| `Reporter.DeliveryByDestination` | Seq.Client.Reporter/Program.cs:194-351 | JiraError iff Jira is a destination and its send fails; email-only ends with Success or MailError; Success iff every destination channel got through; the temp file is always handed over for cleanup |
| `Reporter.Run` | Seq.Client.Reporter/Program.cs:32-375 | the entry point's steps end exactly as `RunOutcome` |
| `Reporter.RunDelivery` | Seq.Client.Reporter/Program.cs:77-351 | a run past the scan reaches ExitApp iff building the connection does not throw; a CSV error then always means the writer failed; Success iff the answer has rows and every step of the destination got through |
| `Reporter.RunExits` | Seq.Client.Reporter/Program.cs:468-512 | no run ends with NothingDone, and the exit status is 0 iff the code is Success (given non-zero unlisted values) |

## Left out

- `AppConfig.cs` (switching the configuration file) is not part of this model. A load is a map of settings.
  `AppConfig.Change` failing for an existing file is not modelled.
- Sub-second ticks of `DateTime.Now`, time-zone rules, and daylight saving time are left out. The UTC offset is one fixed number.
- `Text.EqualsIgnoreCase`: culture-aware comparison is modelled as ASCII case folding.
- `\d` and `\s` in the patterns are modelled as ASCII digits and the .NET white-space characters. Unicode decimal digits are left out.
- Culture date parsing (`DateTime.TryParse`) is the parameter `tryParse`.
- `GetInt` on objects that are neither strings nor DBNull (the cast that throws) is left out. The loader only passes strings.
- `ConfigFile.NowToOneDayCollapses` assumes the two ends are resolved less than a day apart with the same offset. It also assumes they are far enough from both ends of the calendar that nothing clamps.
- `TimeExpression.HybridRule` states the result only where converting the anchor does not clamp at the calendar's ends.
- The alert and logging override methods are left out, as are `Logging`/`Alerting` setup, debug mode and the log lines.
- `ValidateCertificate` and the TLS switch are left out.
- `Reporter.ConnectionThrows`: assigning the bypass list to the .NET Framework `WebProxy` compiles each entry as a regular expression, and an invalid entry makes that throw. Regular-expression syntax is not modelled, so the model crashes only on a null bypass list or a server that is not a URI.
- Parsing `ProxyServer` as a Uri is not modelled; it is the boolean `serverIsUri`. So are the proxy credentials and the HTTP handler settings.
- The model assumes the Seq connection runs its handler callback while it is constructed. So a proxy with a null bypass list crashes the run before the signals are read.
- `Reporter.FoldSignals`: several signals become one flat intersection of ids. The nested expression that `FromIntersectedIds` builds is library code.
- The query, the signal lookups, the CSV writer, Jira issue creation, templates, attachments and email sending are inputs that succeed or fail. Their contents are not modelled.
- The query timeout is passed to the query, but what the library does with a negative timeout is not modelled.
- The temp file deletion in `ExitApp` is modelled as the file it targets. A failing delete is only logged, so it changes nothing here.

## Findings

| source | as written | input that shows it | evidently intended | confidence | as-written member | corrected member |
|---|---|---|---|---|---|---|
| Seq.Client.Reporter/Config.cs:166 | `AddDays(-(7 * time))` multiplies in unchecked Int32, so a large week count wraps | `TimeFrom = 613566756w`: `7 * 613566756` wraps to -4, and the instant is four days after now | a week count too large for the calendar resolves to null, like the other units | not executed | `TimeExpression.ParseDateExpressionAsWritten`, which `TimeExpression.ParseDateTime` uses (shown by `TimeExpression.WeekStepWrapsIntoTheFuture` and `TimeExpression.RelativeWeeksWrap`) | `TimeExpression.ParseDateExpression` (with `TimeExpression.NeverLaterThanStart`, `TimeExpression.ParseDateExpressionUnits`) |
