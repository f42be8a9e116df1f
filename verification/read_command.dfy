/** The `read` command: validate the arguments, fetch the content from the
    one source that takes precedence, synthesize it, and save or play the
    audio. Every call into the outside world is recorded in a trace, and the
    exits of the process become outcome values. */
module ReadCommand {
  import opened CliTypes

  /** At least one of tab, url, file or active is given (truthily). */
  predicate AnySourceGiven(args: Args)
  {
    IsSet(args.tab) || IsSet(args.url) || IsSet(args.file) || args.active
  }

  predicate SpeedInRange(cfg: Config, speed: real)
  {
    cfg.minSpeed <= speed <= cfg.maxSpeed
  }

  datatype ReadFailure =
    | MissingSource
    | SpeedOutOfRange
    | NoContent
    | SynthesisFailed(message: string)
    | SaveFailed(path: string)
    | PlaybackFailed

  /** The checks made before anything is fetched. A falsy speed is not
      range-checked at all. */
  function ValidateRead(args: Args, cfg: Config): (r: Option<ReadFailure>)
    ensures r == Some(MissingSource) <==> !AnySourceGiven(args)
    ensures r == Some(SpeedOutOfRange) <==>
      AnySourceGiven(args) && SpeedIsSet(args.speed) && !SpeedInRange(cfg, args.speed.value)
    ensures r.None? || r == Some(MissingSource) || r == Some(SpeedOutOfRange)
  {
    if !AnySourceGiven(args) then Some(MissingSource)
    else if SpeedIsSet(args.speed) && !SpeedInRange(cfg, args.speed.value) then Some(SpeedOutOfRange)
    else None
  }

  datatype Source = TabSource(tabId: string) | UrlSource(url: string) | FileSource(path: string) | ActiveSource | NoSource

  /** The source content is read from: tab before url before file before
      active. A source is selected only when every source of higher
      precedence is absent, and it carries the argument's value. */
  function SelectSource(args: Args): (s: Source)
    ensures s == NoSource <==> !AnySourceGiven(args)
    ensures s.TabSource? ==> IsSet(args.tab) && s.tabId == args.tab.value
    ensures s.UrlSource? ==> !IsSet(args.tab) && IsSet(args.url) && s.url == args.url.value
    ensures s.FileSource? ==> !IsSet(args.tab) && !IsSet(args.url) && IsSet(args.file) && s.path == args.file.value
    ensures s == ActiveSource ==> !IsSet(args.tab) && !IsSet(args.url) && !IsSet(args.file) && args.active
  {
    if IsSet(args.tab) then TabSource(args.tab.value)
    else if IsSet(args.url) then UrlSource(args.url.value)
    else if IsSet(args.file) then FileSource(args.file.value)
    else if args.active then ActiveSource
    else NoSource
  }

  /** Every source the arguments give, highest precedence first. */
  function GivenSources(args: Args): seq<Source>
  {
    (if IsSet(args.tab) then [TabSource(args.tab.value)] else [])
    + (if IsSet(args.url) then [UrlSource(args.url.value)] else [])
    + (if IsSet(args.file) then [FileSource(args.file.value)] else [])
    + (if args.active then [ActiveSource] else [])
  }

  /** Precedence: the selected source is the first one given, and there is a
      source exactly when validation finds one. */
  lemma SelectSourceIsFirstGiven(args: Args)
    ensures SelectSource(args) == (if GivenSources(args) == [] then NoSource else GivenSources(args)[0])
    ensures SelectSource(args) == NoSource <==> !AnySourceGiven(args)
  {
  }

  /** The url starts with `http://` or `https://`. */
  predicate HasWebScheme(url: string)
    ensures HasWebScheme(url) <==>
      (|url| >= 7 && url[..7] == "http://") || (|url| >= 8 && url[..8] == "https://")
  {
    "http://" <= url || "https://" <= url
  }

  /** The extractor's answer as retrieval passes it on: an extraction error
      becomes empty content; any other exception escapes. */
  function AbsorbExtractionError(a: Attempt<string>): (r: Attempt<string>)
    ensures a.Raised? && a.kind == ExtractionError ==> r == Returned("")
    ensures !(a.Raised? && a.kind == ExtractionError) ==> r == a
  {
    if a.Raised? && a.kind == ExtractionError then Returned("") else a
  }

  /** The answer the outside world gives to an extraction call. */
  function ExtractorAnswer(env: Env, c: Call): Attempt<string>
    requires IsExtraction(c)
  {
    match c
    case ExtractTab(id) => env.extractTab(id)
    case ExtractUrl(url) => env.extractUrl(url)
    case ExtractFile(path) => env.extractFile(path)
  }

  /** Call `c` belongs to the branch of source `s`. */
  predicate Concerns(c: Call, s: Source)
  {
    match c
    case ExtractTab(id) => s == TabSource(id)
    case ExtractUrl(url) => s == UrlSource(url) && HasWebScheme(url)
    case CheckFile(path) => s == FileSource(path)
    case ExtractFile(path) => s == FileSource(path)
    case _ => false
  }

  datatype Retrieval = Retrieval(content: Attempt<string>, calls: seq<Call>)

  /** The content extractor could be constructed. Construction happens
      before the error handling of retrieval, so its failure always escapes. */
  predicate ExtractorReady(env: Env)
  {
    env.createExtractor.Returned?
  }

  /** The selected source is one that is handed to the extractor: a tab, a
      url with a web scheme, or a file whose existence test answers yes. */
  predicate Fetches(s: Source, env: Env)
  {
    match s
    case TabSource(_) => true
    case UrlSource(url) => HasWebScheme(url)
    case FileSource(path) => env.fileExists(path) == Returned(true)
    case _ => false
  }

  predicate ExtractionMade(calls: seq<Call>)
  {
    exists c :: c in calls && IsExtraction(c)
  }

  /** Content retrieval: exactly the branch of the selected source runs. It
      makes at most one extractor call, exactly when that source is fetched,
      and the content is the extractor's answer with extraction errors turned
      into empty content. A file is tested for existence first: a missing
      file yields empty content, and an exception from the test is treated
      like one from the extractor. A url without an http or https scheme and
      the active tab yield empty content without any call. */
  function GetContent(args: Args, env: Env): (r: Retrieval)
    ensures !ExtractorReady(env) ==>
      r == Retrieval(Raised(env.createExtractor.kind, env.createExtractor.message), [])
    ensures forall c :: c in r.calls ==> Concerns(c, SelectSource(args))
    ensures forall i, j :: 0 <= i < j < |r.calls| ==> !(IsExtraction(r.calls[i]) && IsExtraction(r.calls[j]))
    ensures ExtractorReady(env) ==> (ExtractionMade(r.calls) <==> Fetches(SelectSource(args), env))
    ensures ExtractorReady(env) ==>
      forall c :: c in r.calls && IsExtraction(c) ==> r.content == AbsorbExtractionError(ExtractorAnswer(env, c))
    // one case per source
    ensures ExtractorReady(env) && SelectSource(args).TabSource? ==>
      r.calls == [ExtractTab(SelectSource(args).tabId)]
    ensures ExtractorReady(env) && SelectSource(args).UrlSource? ==>
      if HasWebScheme(SelectSource(args).url)
      then r.calls == [ExtractUrl(SelectSource(args).url)]
      else r == Retrieval(Returned(""), [])
    ensures ExtractorReady(env) && SelectSource(args).FileSource? ==>
      var path := SelectSource(args).path;
      match env.fileExists(path)
      case Returned(true) => r.calls == [CheckFile(path), ExtractFile(path)]
      case Returned(false) => r == Retrieval(Returned(""), [CheckFile(path)])
      case Raised(kind, message) => r == Retrieval(AbsorbExtractionError(Raised(kind, message)), [CheckFile(path)])
    ensures ExtractorReady(env) && (SelectSource(args) == ActiveSource || SelectSource(args) == NoSource) ==>
      r == Retrieval(Returned(""), [])
  {
    match env.createExtractor
    case Raised(kind, message) => Retrieval(Raised(kind, message), [])
    case Returned(_) =>
      match SelectSource(args)
      case TabSource(id) =>
        assert ExtractTab(id) in [ExtractTab(id)];
        Retrieval(AbsorbExtractionError(env.extractTab(id)), [ExtractTab(id)])
      case UrlSource(url) =>
        if !HasWebScheme(url) then Retrieval(Returned(""), [])
        else
          assert ExtractUrl(url) in [ExtractUrl(url)];
          Retrieval(AbsorbExtractionError(env.extractUrl(url)), [ExtractUrl(url)])
      case FileSource(path) =>
        (match env.fileExists(path)
         case Raised(kind, message) => Retrieval(AbsorbExtractionError(Raised(kind, message)), [CheckFile(path)])
         case Returned(found) =>
           if !found then Retrieval(Returned(""), [CheckFile(path)])
           else
             var calls := [CheckFile(path), ExtractFile(path)];
             assert !IsExtraction(calls[0]) && calls[1] in calls;
             Retrieval(AbsorbExtractionError(env.extractFile(path)), calls))
      case ActiveSource => Retrieval(Returned(""), [])
      case NoSource => Retrieval(Returned(""), [])
  }

  /** Where the audio goes. */
  datatype OutputAction = SaveTo(path: string) | PlayAloud | KeepOnly

  /** An output path wins over playing; playing is the default unless
      suppressed. */
  function RouteOutput(args: Args): (a: OutputAction)
    ensures a.SaveTo? <==> IsSet(args.output)
    ensures a.SaveTo? ==> a.path == args.output.value
    ensures a.PlayAloud? <==> !IsSet(args.output) && !args.noPlay
  {
    if IsSet(args.output) then SaveTo(args.output.value)
    else if !args.noPlay then PlayAloud
    else KeepOnly
  }

  function EffectiveVoice(args: Args, cfg: Config): (v: string)
    ensures IsSet(args.voice) ==> v == args.voice.value
    ensures !IsSet(args.voice) ==> v == cfg.defaultVoice
  {
    if IsSet(args.voice) then args.voice.value else cfg.defaultVoice
  }

  /** A falsy speed (absent or zero) falls back to the default. */
  function EffectiveSpeed(args: Args, cfg: Config): (s: real)
    ensures SpeedIsSet(args.speed) ==> s == args.speed.value
    ensures !SpeedIsSet(args.speed) ==> s == cfg.defaultSpeed
  {
    if SpeedIsSet(args.speed) then args.speed.value else cfg.defaultSpeed
  }

  /** How the command ends: a `sys.exit(1)` with its reason, an exception
      escaping to the entry point, or a normal return after the output step. */
  datatype ReadEnd = Exited(failure: ReadFailure) | Escaped(kind: ErrorKind, message: string) | Finished(action: OutputAction)

  datatype ReadResult = ReadResult(end: ReadEnd, calls: seq<Call>)

  predicate Synthesized(calls: seq<Call>)
  {
    exists c :: c in calls && c.Synthesize?
  }

  predicate Saved(calls: seq<Call>)
  {
    exists c :: c in calls && c.SaveAudio?
  }

  predicate Played(calls: seq<Call>)
  {
    exists c :: c in calls && c.PlayAudio?
  }

  /** The output step for synthesized `audio`. */
  function Deliver(audio: Audio, action: OutputAction, env: Env): (r: (ReadEnd, seq<Call>))
    ensures action.SaveTo? ==> r.1 == [SaveAudio(action.path, audio)]
    ensures action.PlayAloud? ==> r.1 == [PlayAudio(audio)]
    ensures action.KeepOnly? ==> r.1 == [] && r.0 == Finished(KeepOnly)
    ensures r.0.Finished? ==> r.0.action == action
    ensures action.SaveTo? ==> (r.0.Finished? <==> env.saveAudio(action.path, audio))
    ensures action.PlayAloud? ==> (r.0.Finished? <==> env.playAudio(audio))
    ensures !r.0.Finished? ==>
      || (action.SaveTo? && r.0 == Exited(SaveFailed(action.path)))
      || (action.PlayAloud? && r.0 == Exited(PlaybackFailed))
  {
    match action
    case SaveTo(path) =>
      (if env.saveAudio(path, audio) then Finished(action) else Exited(SaveFailed(path)), [SaveAudio(path, audio)])
    case PlayAloud =>
      (if env.playAudio(audio) then Finished(action) else Exited(PlaybackFailed), [PlayAudio(audio)])
    case KeepOnly =>
      (Finished(action), [])
  }

  /** Synthesis of retrieved content and the output step: how the command
      ends, and the calls made after retrieval. Only a synthesis error is
      handled; any other exception escapes. */
  function SynthesizeAndDeliver(args: Args, cfg: Config, env: Env, content: string): (r: (ReadEnd, seq<Call>))
    requires content != ""
    ensures |r.1| > 0 && r.1[0] == Synthesize(EffectiveVoice(args, cfg), content, EffectiveSpeed(args, cfg))
    ensures forall c :: c in r.1 && c.Synthesize? ==> c == r.1[0]
    ensures forall c :: c in r.1 ==> c.Synthesize? || c.SaveAudio? || c.PlayAudio?
    ensures forall c :: c in r.1 && c.SaveAudio? ==>
      RouteOutput(args) == SaveTo(c.path)
      && env.synthesize(EffectiveVoice(args, cfg), content, EffectiveSpeed(args, cfg)) == Returned(c.audio)
    ensures forall c :: c in r.1 && c.PlayAudio? ==>
      RouteOutput(args) == PlayAloud
      && env.synthesize(EffectiveVoice(args, cfg), content, EffectiveSpeed(args, cfg)) == Returned(c.audio)
    ensures r.0.Finished? ==> r.0.action == RouteOutput(args)
    ensures r.0.Finished? && RouteOutput(args).SaveTo? ==> Saved(r.1)
    ensures r.0.Finished? && RouteOutput(args).PlayAloud? ==> Played(r.1)
    ensures r.0.Exited? ==> r.0.failure.SynthesisFailed? || r.0.failure.SaveFailed? || r.0.failure.PlaybackFailed?
    ensures var answer := env.synthesize(EffectiveVoice(args, cfg), content, EffectiveSpeed(args, cfg));
      answer.Raised? ==>
        r == (if answer.kind == TTSError then Exited(SynthesisFailed(answer.message)) else Escaped(answer.kind, answer.message),
              [Synthesize(EffectiveVoice(args, cfg), content, EffectiveSpeed(args, cfg))])
  {
    var voice := EffectiveVoice(args, cfg);
    var speed := EffectiveSpeed(args, cfg);
    var synthesis := [Synthesize(voice, content, speed)];
    match env.synthesize(voice, content, speed)
    case Raised(kind, message) =>
      (if kind == TTSError then Exited(SynthesisFailed(message)) else Escaped(kind, message), synthesis)
    case Returned(audio) =>
      var delivered := Deliver(audio, RouteOutput(args), env);
      assert |delivered.1| > 0 ==> (synthesis + delivered.1)[1] == delivered.1[0];
      (delivered.0, synthesis + delivered.1)
  }

  /** Only retrieval calls: no synthesis and no output step. */
  predicate RetrievalCallsOnly(calls: seq<Call>)
  {
    forall c :: c in calls ==> !c.Synthesize? && !c.SaveAudio? && !c.PlayAudio?
  }

  /** The command after validation, given the retrieval's outcome `got`: a
      raised retrieval escapes, empty content ends the command, and
      non-empty content is synthesized and delivered after the retrieval
      calls. */
  function ReadRetrieved(args: Args, cfg: Config, env: Env, got: Retrieval): (r: ReadResult)
    requires RetrievalCallsOnly(got.calls)
    ensures got.calls <= r.calls
    ensures got.content.Raised? ==> r == ReadResult(Escaped(got.content.kind, got.content.message), got.calls)
    ensures got.content == Returned("") ==> r == ReadResult(Exited(NoContent), got.calls)
    ensures got.content.Returned? && got.content.value != "" ==> Synthesized(r.calls)
    ensures forall c :: c in r.calls && c.Synthesize? ==>
      && got.content == Returned(c.text)
      && c.text != ""
      && c.voice == EffectiveVoice(args, cfg)
      && c.speed == EffectiveSpeed(args, cfg)
    ensures forall c :: c in r.calls && c.SaveAudio? ==>
      && RouteOutput(args) == SaveTo(c.path)
      && got.content.Returned?
      && env.synthesize(EffectiveVoice(args, cfg), got.content.value, EffectiveSpeed(args, cfg)) == Returned(c.audio)
    ensures forall c :: c in r.calls && c.PlayAudio? ==>
      && RouteOutput(args) == PlayAloud
      && got.content.Returned?
      && env.synthesize(EffectiveVoice(args, cfg), got.content.value, EffectiveSpeed(args, cfg)) == Returned(c.audio)
    ensures r.end.Finished? ==> r.end.action == RouteOutput(args) && Synthesized(r.calls)
    ensures r.end.Finished? && RouteOutput(args).SaveTo? ==> Saved(r.calls)
    ensures r.end.Finished? && RouteOutput(args).PlayAloud? ==> Played(r.calls)
    ensures r.end == Exited(NoContent) ==> !Synthesized(r.calls)
    ensures r.end.Exited? && r.end.failure.SynthesisFailed? ==> Synthesized(r.calls)
    ensures r.end.Escaped? && !Synthesized(r.calls) ==> r.end == Escaped(got.content.kind, got.content.message)
  {
    match got.content
    case Raised(kind, message) => ReadResult(Escaped(kind, message), got.calls)
    case Returned(content) =>
      if content == "" then ReadResult(Exited(NoContent), got.calls)
      else
        var rest := SynthesizeAndDeliver(args, cfg, env, content);
        assert (got.calls + rest.1)[|got.calls|] == rest.1[0];
        ReadResult(rest.0, got.calls + rest.1)
  }

  /** The `read` command. */
  function CommandRead(args: Args, cfg: Config, env: Env): (r: ReadResult)
    ensures !AnySourceGiven(args) ==> r == ReadResult(Exited(MissingSource), [])
    ensures AnySourceGiven(args) && SpeedIsSet(args.speed) && !SpeedInRange(cfg, args.speed.value) ==>
      r == ReadResult(Exited(SpeedOutOfRange), [])
    ensures forall c :: c in r.calls && c.Synthesize? ==>
      && c.text != ""
      && c.voice == EffectiveVoice(args, cfg)
      && c.speed == EffectiveSpeed(args, cfg)
      && (SpeedIsSet(args.speed) ==> SpeedInRange(cfg, c.speed))
    ensures !(Saved(r.calls) && Played(r.calls))
    ensures Saved(r.calls) ==> IsSet(args.output)
    ensures Played(r.calls) ==> !IsSet(args.output) && !args.noPlay
    ensures r.end.Finished? ==> r.end.action == RouteOutput(args) && Synthesized(r.calls)
    ensures r.end == Exited(NoContent) ==> !Synthesized(r.calls)
    ensures r.end.Exited? && r.end.failure.SynthesisFailed? ==> Synthesized(r.calls)
    ensures r.end.Escaped? && !Synthesized(r.calls) && ExtractorReady(env) ==> r.end.kind != ExtractionError
    ensures ValidateRead(args, cfg).None? ==> GetContent(args, env).calls <= r.calls
    ensures forall c :: c in r.calls && c.Synthesize? ==> GetContent(args, env).content == Returned(c.text)
    ensures forall c :: c in r.calls && c.SaveAudio? ==>
      && RouteOutput(args) == SaveTo(c.path)
      && GetContent(args, env).content.Returned?
      && env.synthesize(EffectiveVoice(args, cfg), GetContent(args, env).content.value, EffectiveSpeed(args, cfg)) == Returned(c.audio)
    ensures forall c :: c in r.calls && c.PlayAudio? ==>
      && RouteOutput(args) == PlayAloud
      && GetContent(args, env).content.Returned?
      && env.synthesize(EffectiveVoice(args, cfg), GetContent(args, env).content.value, EffectiveSpeed(args, cfg)) == Returned(c.audio)
    ensures r.end.Finished? && RouteOutput(args).SaveTo? ==> Saved(r.calls)
    ensures r.end.Finished? && RouteOutput(args).PlayAloud? ==> Played(r.calls)
    ensures ValidateRead(args, cfg).None? && GetContent(args, env).content.Raised? ==>
      r == ReadResult(Escaped(GetContent(args, env).content.kind, GetContent(args, env).content.message), GetContent(args, env).calls)
    ensures ValidateRead(args, cfg).None? && GetContent(args, env).content.Returned? && GetContent(args, env).content.value != "" ==>
      Synthesized(r.calls)
  {
    match ValidateRead(args, cfg)
    case Some(failure) => ReadResult(Exited(failure), [])
    case None =>
      var got := GetContent(args, env);
      assert forall c :: c in got.calls ==> Concerns(c, SelectSource(args));
      ReadRetrieved(args, cfg, env, got)
  }

  /** Empty content, whatever its cause, ends the command before synthesis. */
  lemma NoSynthesisWithoutContent(args: Args, cfg: Config, env: Env)
    requires ValidateRead(args, cfg).None?
    requires GetContent(args, env).content == Returned("")
    ensures CommandRead(args, cfg, env) == ReadResult(Exited(NoContent), GetContent(args, env).calls)
    ensures !Synthesized(CommandRead(args, cfg, env).calls)
  {
  }

  /** How a retrieval that cannot yield content ends: with no content, or
      with the extractor's construction error escaping. */
  function NoContentEnd(env: Env): (e: ReadEnd)
    ensures ExtractorReady(env) ==> e == Exited(NoContent)
    ensures !ExtractorReady(env) ==> e == Escaped(env.createExtractor.kind, env.createExtractor.message)
  {
    match env.createExtractor
    case Returned(_) => Exited(NoContent)
    case Raised(kind, message) => Escaped(kind, message)
  }

  /** A retrieval that cannot yield content, because the extractor could not
      be constructed or because it gave empty content, ends the command with
      `NoContentEnd`. */
  lemma NoContentEndIsTheEnd(args: Args, cfg: Config, env: Env)
    requires ValidateRead(args, cfg).None?
    requires !ExtractorReady(env) || GetContent(args, env).content == Returned("")
    ensures CommandRead(args, cfg, env).end == NoContentEnd(env)
    ensures !Synthesized(CommandRead(args, cfg, env).calls)
  {
  }

  /** A synthesis error for the retrieved content: a TTS error exits with
      status 1, any other exception escapes, and nothing follows the one
      synthesis call. */
  lemma SynthesisErrorEndsRead(args: Args, cfg: Config, env: Env, content: string, kind: ErrorKind, message: string)
    requires ValidateRead(args, cfg).None?
    requires GetContent(args, env).content == Returned(content) && content != ""
    requires env.synthesize(EffectiveVoice(args, cfg), content, EffectiveSpeed(args, cfg)) == Raised(kind, message)
    ensures CommandRead(args, cfg, env) ==
      ReadResult(
        if kind == TTSError then Exited(SynthesisFailed(message)) else Escaped(kind, message),
        GetContent(args, env).calls + [Synthesize(EffectiveVoice(args, cfg), content, EffectiveSpeed(args, cfg))])
  {
  }

  /** An extraction error for the selected source ends the command with no
      content and no synthesis. */
  lemma ExtractionErrorEndsRead(args: Args, cfg: Config, env: Env, message: string)
    requires ValidateRead(args, cfg).None?
    requires || (SelectSource(args).TabSource? && env.extractTab(SelectSource(args).tabId) == Raised(ExtractionError, message))
             || (SelectSource(args).UrlSource? && env.extractUrl(SelectSource(args).url) == Raised(ExtractionError, message))
             || (&& SelectSource(args).FileSource?
                 && env.fileExists(SelectSource(args).path) == Returned(true)
                 && env.extractFile(SelectSource(args).path) == Raised(ExtractionError, message))
    ensures CommandRead(args, cfg, env).end == NoContentEnd(env)
    ensures !Synthesized(CommandRead(args, cfg, env).calls)
  {
  }

  /** An exception from the file-existence test is inside the same handler
      as the extraction: any exception but an extraction error escapes the
      command right after the test, before the extractor is called. */
  lemma FileCheckErrorEscapes(args: Args, cfg: Config, env: Env, kind: ErrorKind, message: string)
    requires ValidateRead(args, cfg).None? && ExtractorReady(env)
    requires SelectSource(args).FileSource? && env.fileExists(SelectSource(args).path) == Raised(kind, message)
    ensures kind != ExtractionError ==>
      CommandRead(args, cfg, env) == ReadResult(Escaped(kind, message), [CheckFile(SelectSource(args).path)])
    ensures kind == ExtractionError ==>
      CommandRead(args, cfg, env) == ReadResult(Exited(NoContent), [CheckFile(SelectSource(args).path)])
  {
  }

  /** A url without an http or https scheme is never handed to the extractor. */
  lemma InvalidUrlIsNeverFetched(args: Args, cfg: Config, env: Env)
    requires ValidateRead(args, cfg).None?
    requires SelectSource(args).UrlSource? && !HasWebScheme(SelectSource(args).url)
    ensures CommandRead(args, cfg, env) == ReadResult(NoContentEnd(env), [])
  {
  }

  /** Reading the active tab always fails for lack of content. */
  lemma ActiveTabYieldsNoContent(args: Args, cfg: Config, env: Env)
    requires ValidateRead(args, cfg).None?
    requires SelectSource(args) == ActiveSource
    ensures CommandRead(args, cfg, env) == ReadResult(NoContentEnd(env), [])
  {
  }

  /** A speed of zero is falsy: it behaves exactly like an absent speed,
      skipping the range check and synthesizing at the default speed. */
  lemma ZeroSpeedActsAsDefault(args: Args, cfg: Config, env: Env)
    requires args.speed == Some(0.0)
    ensures CommandRead(args, cfg, env) == CommandRead(args.(speed := None), cfg, env)
  {
    var unset := args.(speed := None);
    assert ValidateRead(args, cfg) == ValidateRead(unset, cfg);
    assert SelectSource(args) == SelectSource(unset);
    assert GetContent(args, env) == GetContent(unset, env);
    assert EffectiveVoice(args, cfg) == EffectiveVoice(unset, cfg);
    assert EffectiveSpeed(args, cfg) == EffectiveSpeed(unset, cfg);
    assert RouteOutput(args) == RouteOutput(unset);
    var got := GetContent(args, env);
    if ValidateRead(args, cfg).None? && got.content.Returned? && got.content.value != "" {
      assert SynthesizeAndDeliver(args, cfg, env, got.content.value)
        == SynthesizeAndDeliver(unset, cfg, env, got.content.value);
    }
  }

  /** The whole pipeline once content is there: a successful synthesis of
      the retrieved content with the effective voice and speed is followed
      by exactly the routed output step for that audio. */
  lemma ReadPipelineDelivers(args: Args, cfg: Config, env: Env, content: string, audio: Audio)
    requires ValidateRead(args, cfg).None?
    requires GetContent(args, env).content == Returned(content) && content != ""
    requires env.synthesize(EffectiveVoice(args, cfg), content, EffectiveSpeed(args, cfg)) == Returned(audio)
    ensures CommandRead(args, cfg, env) ==
      ReadResult(
        Deliver(audio, RouteOutput(args), env).0,
        GetContent(args, env).calls
          + [Synthesize(EffectiveVoice(args, cfg), content, EffectiveSpeed(args, cfg))]
          + Deliver(audio, RouteOutput(args), env).1)
  {
  }

  /** Reading a tab end to end: the tab's text is synthesized and the audio
      saved, played or kept as routed; the command finishes normally exactly
      when that output step succeeds. */
  lemma ReadTabEndToEnd(args: Args, cfg: Config, env: Env, text: string, audio: Audio)
    requires ValidateRead(args, cfg).None? && ExtractorReady(env)
    requires SelectSource(args).TabSource?
    requires env.extractTab(SelectSource(args).tabId) == Returned(text) && text != ""
    requires env.synthesize(EffectiveVoice(args, cfg), text, EffectiveSpeed(args, cfg)) == Returned(audio)
    ensures CommandRead(args, cfg, env) ==
      ReadResult(
        Deliver(audio, RouteOutput(args), env).0,
        [ExtractTab(SelectSource(args).tabId), Synthesize(EffectiveVoice(args, cfg), text, EffectiveSpeed(args, cfg))]
          + Deliver(audio, RouteOutput(args), env).1)
    ensures CommandRead(args, cfg, env).end.Finished? <==>
      match RouteOutput(args)
      case SaveTo(path) => env.saveAudio(path, audio)
      case PlayAloud => env.playAudio(audio)
      case KeepOnly => true
  {
  }

  /** Reading an existing file end to end: the file is tested, extracted,
      its text synthesized and the audio delivered as routed. */
  lemma ReadFileEndToEnd(args: Args, cfg: Config, env: Env, text: string, audio: Audio)
    requires ValidateRead(args, cfg).None? && ExtractorReady(env)
    requires SelectSource(args).FileSource? && env.fileExists(SelectSource(args).path) == Returned(true)
    requires env.extractFile(SelectSource(args).path) == Returned(text) && text != ""
    requires env.synthesize(EffectiveVoice(args, cfg), text, EffectiveSpeed(args, cfg)) == Returned(audio)
    ensures CommandRead(args, cfg, env) ==
      ReadResult(
        Deliver(audio, RouteOutput(args), env).0,
        [CheckFile(SelectSource(args).path), ExtractFile(SelectSource(args).path),
         Synthesize(EffectiveVoice(args, cfg), text, EffectiveSpeed(args, cfg))]
          + Deliver(audio, RouteOutput(args), env).1)
  {
  }
}
