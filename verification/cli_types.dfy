/** The inputs the command-line entry point decides on: the parsed
    arguments, the configuration constants, and the outside world (content
    extractor, synthesizer, audio output, browser detection) as a record of
    answers. Python exceptions are modelled as `Raised` answers carrying the
    exception class, so that each handler can catch only its own class. */
module CliTypes {
  import TabListing

  datatype Option<T> = None | Some(value: T)

  /** Python truthiness of an optional string argument: `None` and `""` are false. */
  predicate IsSet(arg: Option<string>)
  {
    arg.Some? && |arg.value| > 0
  }

  /** Python truthiness of the optional speed: `None` and `0.0` are false. */
  predicate SpeedIsSet(speed: Option<real>)
  {
    speed.Some? && speed.value != 0.0
  }

  /** The parsed command line. */
  datatype Args = Args(
    command: Option<string>,
    verbose: bool,
    tab: Option<string>,
    url: Option<string>,
    file: Option<string>,
    active: bool,
    voice: Option<string>,
    speed: Option<real>,
    noPlay: bool,
    output: Option<string>,
    listType: Option<string>)

  /** The configuration constants the commands consult. */
  datatype Config = Config(
    ttsProvider: string,
    defaultVoice: string,
    defaultSpeed: real,
    cacheEnabled: bool,
    minSpeed: real,
    maxSpeed: real,
    logLevel: string)

  /** The exception classes the handlers distinguish; `OtherError` is any
      other `Exception`. */
  datatype ErrorKind = ExtractionError | TTSError | BrowserDetectionError | OtherError

  /** The answer of a call into code outside the model. */
  datatype Attempt<T> = Returned(value: T) | Raised(kind: ErrorKind, message: string)

  type Audio = seq<bv8>

  /** What the outside world answers. `createExtractor` is the outcome of
      constructing the content extractor. Synthesis takes voice, text and
      speed. The file test answers whether the file exists, or raises (an
      `OSError` other than "not found"); saving and playing answer whether
      they succeeded. */
  datatype Env = Env(
    createExtractor: Attempt<()>,
    extractTab: string -> Attempt<string>,
    extractUrl: string -> Attempt<string>,
    extractFile: string -> Attempt<string>,
    fileExists: string -> Attempt<bool>,
    synthesize: (string, string, real) -> Attempt<Audio>,
    saveAudio: (string, Audio) -> bool,
    playAudio: Audio -> bool,
    detectTabs: Attempt<seq<TabListing.Tab>>,
    voices: Attempt<seq<string>>)

  /** The calls a command makes into the outside world, in order. */
  datatype Call =
    | ExtractTab(tabId: string)
    | ExtractUrl(url: string)
    | CheckFile(path: string)
    | ExtractFile(path: string)
    | Synthesize(voice: string, text: string, speed: real)
    | SaveAudio(path: string, audio: Audio)
    | PlayAudio(audio: Audio)

  predicate IsExtraction(c: Call)
  {
    c.ExtractTab? || c.ExtractUrl? || c.ExtractFile?
  }
}
