/** The entry point and the `list` and `config` commands: which handler a
    command line reaches, what each handler reports, and the process exit
    code that results. */
module Dispatch {
  import opened CliTypes
  import TabListing
  import ReadCommand

  datatype ListOutcome =
    | TabsListed(groups: seq<TabListing.TabGroup>)
    | NoTabsDetected
    | TabDetectionFailed(message: string)
    | VoicesListed(voices: seq<string>)
    | ListUsageHint
    | ListEscaped(kind: ErrorKind, message: string)

  /** What listing the tabs reports for the detector's answer: a warning for
      no tabs, the grouping otherwise, an exit for a detection error, and any
      other exception escaping. */
  predicate ListsTabs(detected: Attempt<seq<TabListing.Tab>>, o: ListOutcome)
  {
    match detected
    case Returned(tabs) =>
      if tabs == [] then o == NoTabsDetected
      else o.TabsListed? && o.groups != [] && TabListing.IsGrouping(tabs, o.groups)
    case Raised(kind, message) =>
      if kind == BrowserDetectionError then o == TabDetectionFailed(message)
      else o == ListEscaped(kind, message)
  }

  method ListTabs(detected: Attempt<seq<TabListing.Tab>>) returns (o: ListOutcome)
    ensures ListsTabs(detected, o)
  {
    match detected
    case Raised(kind, message) =>
      o := if kind == BrowserDetectionError then TabDetectionFailed(message) else ListEscaped(kind, message);
    case Returned(tabs) =>
      if tabs == [] {
        o := NoTabsDetected;
      } else {
        var groups := TabListing.GroupByBrowser(tabs);
        assert tabs[0] in tabs;
        o := TabsListed(groups);
      }
  }

  /** Listing the voices reports whatever the synthesizer offers; a failure
      to get them escapes. */
  function ListVoices(voices: Attempt<seq<string>>): (o: ListOutcome)
    ensures voices.Returned? ==> o == VoicesListed(voices.value)
    ensures voices.Raised? ==> o == ListEscaped(voices.kind, voices.message)
  {
    match voices
    case Returned(vs) => VoicesListed(vs)
    case Raised(kind, message) => ListEscaped(kind, message)
  }

  method CommandList(args: Args, env: Env) returns (o: ListOutcome)
    ensures args.listType == Some("tabs") ==> ListsTabs(env.detectTabs, o)
    ensures args.listType == Some("voices") ==> o == ListVoices(env.voices)
    ensures args.listType != Some("tabs") && args.listType != Some("voices") ==> o == ListUsageHint
  {
    if args.listType == Some("tabs") {
      o := ListTabs(env.detectTabs);
    } else if args.listType == Some("voices") {
      o := ListVoices(env.voices);
    } else {
      o := ListUsageHint;
    }
  }

  /** The settings the `config` command shows. */
  datatype ConfigReport = ConfigReport(provider: string, voice: string, speed: real, cacheEnabled: bool)

  function CommandConfig(cfg: Config): (r: ConfigReport)
    ensures r.provider == cfg.ttsProvider && r.voice == cfg.defaultVoice
    ensures r.speed == cfg.defaultSpeed && r.cacheEnabled == cfg.cacheEnabled
  {
    ConfigReport(cfg.ttsProvider, cfg.defaultVoice, cfg.defaultSpeed, cfg.cacheEnabled)
  }

  datatype CommandOutcome =
    | ReadRan(result: ReadCommand.ReadResult)
    | ListRan(outcome: ListOutcome)
    | ConfigShown(report: ConfigReport)
    | HelpPrinted

  /** An exception left the handler and reached the entry point. */
  predicate EscapedError(o: CommandOutcome)
  {
    (o.ReadRan? && o.result.end.Escaped?) || (o.ListRan? && o.outcome.ListEscaped?)
  }

  /** The handler itself ended the process with status 1. */
  predicate ExitedWithFailure(o: CommandOutcome)
  {
    (o.ReadRan? && o.result.end.Exited?) || (o.ListRan? && o.outcome.TabDetectionFailed?)
  }

  datatype MainResult = MainResult(
    logLevel: string,
    outcome: CommandOutcome,
    reportedError: Option<string>,
    exitCode: int)

  /** The entry point: pick the log level, dispatch on the command, report an
      escaped exception and exit with status 1 on any failure. */
  method RunCommandLine(args: Args, cfg: Config, env: Env) returns (m: MainResult)
    ensures m.logLevel == (if args.verbose then "DEBUG" else cfg.logLevel)
    ensures args.command == Some("read") ==> m.outcome == ReadRan(ReadCommand.CommandRead(args, cfg, env))
    ensures args.command == Some("list") ==> m.outcome.ListRan?
    ensures args.command == Some("list") && args.listType == Some("tabs") ==> ListsTabs(env.detectTabs, m.outcome.outcome)
    ensures args.command == Some("list") && args.listType == Some("voices") ==> m.outcome.outcome == ListVoices(env.voices)
    ensures args.command == Some("list") && args.listType != Some("tabs") && args.listType != Some("voices") ==>
      m.outcome.outcome == ListUsageHint && m.exitCode == 0
    ensures args.command == Some("config") ==> m.outcome == ConfigShown(CommandConfig(cfg))
    ensures args.command !in {Some("read"), Some("list"), Some("config")} ==> m.outcome == HelpPrinted && m.exitCode == 0
    ensures m.exitCode == 0 || m.exitCode == 1
    ensures m.exitCode == 1 <==> EscapedError(m.outcome) || ExitedWithFailure(m.outcome)
    ensures m.reportedError.Some? <==> EscapedError(m.outcome)
    ensures m.reportedError.Some? ==>
      m.reportedError.value == (if m.outcome.ReadRan? then m.outcome.result.end.message else m.outcome.outcome.message)
    ensures args.command == Some("read") ==> (m.exitCode == 0 <==> m.outcome.result.end.Finished?)
  {
    var logLevel := if args.verbose then "DEBUG" else cfg.logLevel;
    var outcome;
    if args.command == Some("read") {
      outcome := ReadRan(ReadCommand.CommandRead(args, cfg, env));
    } else if args.command == Some("list") {
      var listed := CommandList(args, env);
      outcome := ListRan(listed);
    } else if args.command == Some("config") {
      outcome := ConfigShown(CommandConfig(cfg));
    } else {
      outcome := HelpPrinted;
    }
    var reported: Option<string> := None;
    if outcome.ReadRan? && outcome.result.end.Escaped? {
      reported := Some(outcome.result.end.message);
    } else if outcome.ListRan? && outcome.outcome.ListEscaped? {
      reported := Some(outcome.outcome.message);
    }
    var code := if reported.Some? || ExitedWithFailure(outcome) then 1 else 0;
    m := MainResult(logLevel, outcome, reported, code);
  }
}
