# PageReader core, modelled in Dafny

PageReader reads web pages and browser tabs aloud with offline text-to-speech. It also does voice dictation, which stops recording after a stretch of silence. This project models two pieces of pure logic from that program and proves properties of them:

- **The silence detector** (`src/stt/audio_utils.py`). It counts consecutive silent audio chunks. A chunk is silent when its RMS energy is strictly below a threshold. The detector reports when the count reaches the required number of chunks. Module `AudioUtils` models it as an immutable state record with a step function (`ProcessChunk`), `Reset`, `GetStatus` and a replay of event histories. The main result is the run-length invariant: after any history of chunks and resets, the count equals the length of the trailing run of silent chunks.
- **The decisions of the command-line entry point** (`src/main.py`):
  - `ReadCommand` covers the `read` command: argument validation (with Python truthiness for strings and for a `0.0` speed), source precedence, the URL scheme check, extraction-error handling, voice and speed defaults, and routing the output to save, play or neither.
  - `Dispatch` covers `list`, `config` and the top-level dispatch with its exit status.
  - `TabListing` and `StringOrder` cover the grouping of detected tabs by browser, listed in Python's string order.

Every answer from the outside world is a field of an `Env` record. That covers constructing the content extractor, the extractor calls, the file-existence test, the synthesizer, saving and playing audio, browser tab detection and the voice list. The answers that can raise an exception are `Returned(value)` or `Raised(kind, message)`, where `kind` is the exception class, so each `except` clause catches only its own class. The file-existence test answers `Returned(found)` or raises, as `Path.exists()` does for an `OSError` other than "not found". Saving and playing also answer a `bool`, whether they succeeded, because their handlers catch every exception. The `read` command records the calls it makes in a trace. This makes properties such as "no synthesis is attempted" or "audio is never both saved and played" statements about values. `list` and `config` make at most one query and record no trace. `sys.exit(1)` becomes the outcome `Exited(reason)`. An exception that escapes to the entry point becomes `Escaped(kind, message)`. The entry point turns both into exit status 1.

Files: `audio_utils.dfy`, `string_order.dfy`, `tab_listing.dfy`, `cli_types.dfy`, `read_command.dfy`, `dispatch.dfy`.

## Model

| member | source | states |
|---|---|---|
| AudioUtils.DetectSilenceIsStrict | src/stt/audio_utils.py:25-36 | the silence test is strict: a chunk whose RMS equals the threshold is not silent |
| AudioUtils.IsSilenceThresholdReached | src/stt/audio_utils.py:110-116 | with no chunks required (a silence duration shorter than one chunk) the threshold is always reported as reached |
| AudioUtils.NewSilenceDetector | src/stt/audio_utils.py:53-75 | a new detector keeps its configuration and counts zero silent chunks; it already reports the threshold reached exactly when no chunks are required |
| AudioUtils.ProcessChunk | src/stt/audio_utils.py:82-108 | a silent chunk raises the count by exactly one, any other chunk sets it to 0 whatever it was, the configuration is unchanged, and the flag returned is "threshold reached" after the update |
| AudioUtils.Reset | src/stt/audio_utils.py:118-121 | the count becomes 0; required chunks, threshold, durations and sample rate are unchanged |
| AudioUtils.GetStatus | src/stt/audio_utils.py:123-136 | the report's counters are the detector's, and its `threshold_reached` agrees with `is_silence_threshold_reached` (count >= required) |
| AudioUtils.ReplayCountsTrailingSilentRun | src/stt/audio_utils.py:95-121 | run-length invariant: from construction, after any history of chunks and resets the count is the length of the trailing run of silent chunks since the last reset, and the configuration never changes |
| AudioUtils.ReplayCountIsTheTrailingRun | src/stt/audio_utils.py:95-121 | after any history, the count equals every length that satisfies the trailing-run definition, so the count is the trailing silent run |
| AudioUtils.ThresholdReachedIffRecentSilence | src/stt/audio_utils.py:108-116 | after any history the threshold is reached if and only if no chunks are required or the last `required_chunks` events are all silent chunks |
| AudioUtils.ProcessChunkReportsRecentSilence | src/stt/audio_utils.py:108 | the flag `process_chunk` returns is the threshold state of the detector after that chunk is appended to the history |
| ReadCommand.ValidateRead | src/main.py:165-172 | fails with a missing source exactly when none of tab/url/file/active is truthy; otherwise fails on speed exactly when the speed is truthy and outside [min, max]; a falsy speed is never range-checked |
| ReadCommand.SelectSource | src/main.py:246-275 | no source is selected exactly when none is given; a source is selected only when every source of higher precedence (tab, url, file, active) is absent, and it carries that argument's value |
| ReadCommand.SelectSourceIsFirstGiven | src/main.py:246-275 | the source read is the first given in the order tab, url, file, active, and there is none exactly when validation reports a missing source |
| ReadCommand.HasWebScheme | src/main.py:254 | a url passes exactly when its first 7 characters are `http://` or its first 8 are `https://` |
| ReadCommand.AbsorbExtractionError | src/main.py:277-281 | an extraction error becomes empty content; every other answer, including other exceptions, passes through unchanged |
| ReadCommand.GetContent | src/main.py:234-283 | a failure to construct the extractor escapes before any call. Otherwise only the selected source's branch touches the outside world, and at most one extractor call is made, exactly when that source is a tab, a url with a web scheme, or a file whose existence test answers yes. The content is that call's answer with extraction errors turned into "". A tab or a web url is exactly its one extraction call; an invalid url gives "" with no call. A file is tested for existence first: yes gives the test and then the extraction, no gives "" after the test alone, and an exception from the test is handled like an extractor's (an extraction error becomes "", anything else escapes) after the test alone. The active tab and no source give "" with no call |
| ReadCommand.RouteOutput | src/main.py:200-204 | audio is saved exactly when an output path is given; otherwise it is played exactly when playing is not suppressed |
| ReadCommand.EffectiveVoice | src/main.py:190 | a truthy voice argument is used, otherwise the configured default |
| ReadCommand.EffectiveSpeed | src/main.py:191 | a truthy speed is used, otherwise (absent or 0.0) the configured default |
| ReadCommand.Deliver | src/main.py:331-363 | saving or playing makes exactly one call with the synthesized audio. It finishes normally exactly when the outside world reports the write or playback succeeded, and otherwise exits with status 1 for that reason. Keeping only makes no call and finishes |
| ReadCommand.SynthesizeAndDeliver | src/main.py:186-204 | after retrieval, exactly one synthesis of the content with the effective voice and speed comes first. It is followed only by the routed save or play of the audio the synthesizer returned. When synthesis raises, that one call is the whole trace: a TTS error exits with status 1 and its message, and any other exception escapes unchanged. A normal end made the routed output call |
| ReadCommand.ReadRetrieved | src/main.py:176-204 | after validation, for a retrieval that made no synthesis or output call: an exception from retrieval escapes unchanged with the retrieval calls as the trace, and empty content ends with "no content" and no synthesis. Non-empty content is always synthesized, only with that content and the effective voice and speed. Any save or play follows the route and uses the audio the synthesizer returned. A normal end took the routed action and made its output call |
| ReadCommand.CommandRead | src/main.py:159-204 | a missing source or an out-of-range truthy speed ends the command before any call. After validation the retrieval calls come first. Synthesis only ever sees the retrieved, non-empty content with the effective voice and speed (in range when given). Audio is saved or played only as routed and only as the synthesizer returned it, and never both. A normal end took the routed action and made the routed save or play call. Ending for lack of content means nothing was synthesized. While the extractor could be constructed, an extraction error never escapes retrieval. Any exception retrieval lets through escapes the command unchanged, with the retrieval calls as the trace. Valid arguments with non-empty content are always synthesized, whether synthesis then succeeds or fails |
| ReadCommand.NoSynthesisWithoutContent | src/main.py:180-182 | empty content, whatever its cause, ends the command with "no content" and no synthesis call |
| ReadCommand.NoContentEndIsTheEnd | src/main.py:176-182 | with valid arguments, an extractor that could not be constructed or a retrieval that gave empty content ends the command with "no content" when the extractor was constructed, and with the construction error escaping when it was not. Nothing is synthesized |
| ReadCommand.SynthesisErrorEndsRead | src/main.py:186-198 | with valid arguments and non-empty content, a raising synthesizer ends the command after the retrieval calls and the one synthesis call. A TTS error exits with status 1 and its message; any other exception escapes |
| ReadCommand.ExtractionErrorEndsRead | src/main.py:277-281 | an extraction error from the extractor call for the selected source (for a file, once its existence test answered yes) ends the command with "no content" and no synthesis (or with the extractor's construction error, if that failed) |
| ReadCommand.InvalidUrlIsNeverFetched | src/main.py:254-257 | a selected url without an http or https scheme ends the command with "no content", or with the extractor's construction error, after no call at all |
| ReadCommand.ActiveTabYieldsNoContent | src/main.py:270-275 | reading the active tab ends the command with "no content", or with the extractor's construction error, after no call at all |
| ReadCommand.ZeroSpeedActsAsDefault | src/main.py:170-191 | a speed of 0.0 behaves exactly like an absent speed in every respect |
| ReadCommand.ReadPipelineDelivers | src/main.py:174-204 | when validation passes, retrieval returns non-empty content and synthesis returns audio, the command ends exactly as the routed output step ends. Its trace is the retrieval calls, the synthesis call and that step's call |
| ReadCommand.ReadTabEndToEnd | src/main.py:246-249 | reading a tab whose text is non-empty and synthesizes gives the trace "extract tab, synthesize" plus the routed output call. It finishes normally exactly when the routed save or playback succeeds, or when the audio is only kept |
| ReadCommand.FileCheckErrorEscapes | src/main.py:261-281 | when the file-existence test raises, the trace is that test alone: any exception but an extraction error escapes the command, and an extraction error ends it with "no content" |
| ReadCommand.ReadFileEndToEnd | src/main.py:261-268 | reading an existing file whose text is non-empty and synthesizes gives the trace "check file, extract file, synthesize" plus the routed output step |
| StringOrder.Sort | src/main.py:305 | sorts pairwise different browser names into strictly ascending Python string order, as a permutation of its input |
| StringOrder.AscendingUnique | src/main.py:305 | two strictly ascending sequences with the same elements are equal, so the sorted order does not depend on how it is computed |
| TabListing.Bucket | src/main.py:298-302 | the dictionary pass maps exactly the browsers present to their tabs in input order, and records each browser once |
| TabListing.GroupByBrowser | src/main.py:297-308 | the listing is a grouping: groups in strictly ascending browser order, each holding exactly its browser's tabs in input order, each count equal to its size and positive, every input browser represented; no tabs give no groups |
| TabListing.EachTabInItsBrowserGroup | src/main.py:298-308 | each tab lies in the group keyed by its browser name and in no other; every tab's browser has a group; no browser has two groups |
| TabListing.GroupingUnique | src/main.py:297-308 | any two groupings of the same tabs are equal, so the listing is fully determined by the input |
| TabListing.EmptyInputHasNoGroups | src/main.py:297-305 | the only grouping of an empty input is empty |
| Dispatch.ListTabs | src/main.py:286-315 | no detected tabs give the "no tabs" warning; detected tabs give a non-empty grouping of them; a detection error ends with status 1; any other exception escapes |
| Dispatch.ListVoices | src/main.py:318-328 | the voices listed are the synthesizer's; a failure to get them escapes |
| Dispatch.CommandList | src/main.py:207-218 | `tabs` lists tabs, `voices` lists voices, anything else gives the usage warning |
| Dispatch.CommandConfig | src/main.py:221-231 | the report shows the configured provider, default voice, default speed and cache setting |
| Dispatch.RunCommandLine | src/main.py:51-77 | verbose selects DEBUG logging; read, list and config reach their handlers and anything else prints help with status 0; `list` reaches tabs, voices or the usage warning (status 0); the exit status is 1 exactly when a handler exited with failure or an exception escaped, and an error is reported exactly when one escaped, with that exception's message; `read` exits 0 exactly when it finished normally |

## Left out

- `calculate_rms` (src/stt/audio_utils.py:10-22) uses numpy floating point. The RMS energy of a chunk is an abstract `real`, so a NaN energy is not modelled.
- The constructor's `required_chunks = int(silence_duration / chunk_duration)` uses float division and truncation. `NewSilenceDetector` takes `requiredChunks` as an argument instead. Any integer is allowed, and every value at or below zero behaves like zero.
- The default arguments are not modelled: the detector's defaults (5.0 s of silence, 16000 Hz, 0.1 s chunks, threshold 500.0) and the default threshold 500.0 of `detect_silence`. Every configuration value is an explicit argument, so the dictation code's reliance on the chunk-duration and threshold defaults is outside the model.
- The `elapsed_silence_seconds` float of `get_status` and the debug logging are not modelled.
- Speeds are `real`, not IEEE doubles. A NaN speed is not modelled; Python would treat it as truthy and reject it.
- `src/config.py` is not part of this model. The speed bounds, defaults, provider, cache flag and log level are fields of `Config`. The parser's help text gives the speed range as 0.5 to 2.0. The CLI rejects an out-of-range speed with exit status 1; it does not clamp it.
- Printed messages are not modelled: colours, the character counts and timings, the network hint after a connection error, and the upper-casing of browser names. Only the decisions and exit statuses are kept. `KeyboardInterrupt` (exit status 0) is not modelled, because it is an asynchronous signal.
- The bodies of the extractor, the synthesizer, playback, the file write and browser detection are answers in `Env`. Constructing the extractor is its own answer, `createExtractor`, because it happens before retrieval's error handling on every path. Constructing the synthesizer happens inside the same handler as the synthesis call, so its errors are folded into the `synthesize` answer; the same holds for the voice list.
- Argument parsing (`create_parser`, `src/cli/parser.py`) is not modelled. Its mutually exclusive group is not assumed: `read` is modelled for any combination of arguments, as its own checks and precedence handle them.
- Dictation orchestration (`src/stt/transcriber.py`), UI theming and event tables (`src/ui/`) and re-export modules are not modelled. They are I/O, foreign calls or constant tables.
