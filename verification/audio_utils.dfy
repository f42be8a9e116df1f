/** The silence detector used to stop a dictation recording after a stretch
    of quiet audio. The RMS energy of a chunk is taken as an abstract `real`
    measured elsewhere; the detector itself is a counter of consecutive silent
    chunks compared against a fixed number of required chunks. */
module AudioUtils {

  /** A chunk is silent when its RMS energy is strictly below the threshold. */
  predicate DetectSilence(rms: real, threshold: real)
  {
    rms < threshold
  }

  /** The comparison is strict: energy exactly at the threshold counts as sound. */
  lemma DetectSilenceIsStrict(rms: real, threshold: real)
    ensures rms == threshold ==> !DetectSilence(rms, threshold)
  {
  }

  /** The detector's state: its configuration and the running count of
      consecutive silent chunks. `requiredChunks` is given directly rather
      than derived from the two durations. */
  datatype SilenceDetector = SilenceDetector(
    silenceDuration: real,
    sampleRate: int,
    chunkDuration: real,
    silenceThreshold: real,
    requiredChunks: int,
    silentChunks: nat)

  /** The configuration fields of `a` and `b` agree. */
  predicate SameConfiguration(a: SilenceDetector, b: SilenceDetector)
  {
    && a.silenceDuration == b.silenceDuration
    && a.sampleRate == b.sampleRate
    && a.chunkDuration == b.chunkDuration
    && a.silenceThreshold == b.silenceThreshold
    && a.requiredChunks == b.requiredChunks
  }

  /** Sustained silence has been observed: at least the required number of
      consecutive silent chunks. With no chunks required it always holds. */
  predicate IsSilenceThresholdReached(d: SilenceDetector)
    ensures d.requiredChunks <= 0 ==> IsSilenceThresholdReached(d)
  {
    d.silentChunks >= d.requiredChunks
  }

  /** A freshly constructed detector: no silent chunks counted yet. When the
      silence duration is shorter than one chunk (`requiredChunks <= 0`) the
      threshold is already reported as reached. */
  function NewSilenceDetector(
    silenceDuration: real,
    sampleRate: int,
    chunkDuration: real,
    silenceThreshold: real,
    requiredChunks: int): (d: SilenceDetector)
    ensures d.silentChunks == 0
    ensures d.silenceDuration == silenceDuration && d.sampleRate == sampleRate
    ensures d.chunkDuration == chunkDuration && d.silenceThreshold == silenceThreshold
    ensures d.requiredChunks == requiredChunks
    ensures IsSilenceThresholdReached(d) <==> requiredChunks <= 0
  {
    SilenceDetector(silenceDuration, sampleRate, chunkDuration, silenceThreshold, requiredChunks, 0)
  }

  /** Feeds one chunk of RMS energy `rms` to the detector. A silent chunk
      extends the run by one, any other chunk ends it; the flag returned says
      whether the threshold is reached after the update. */
  function ProcessChunk(d: SilenceDetector, rms: real): (r: (SilenceDetector, bool))
    ensures SameConfiguration(r.0, d)
    ensures DetectSilence(rms, d.silenceThreshold) ==> r.0.silentChunks == d.silentChunks + 1
    ensures !DetectSilence(rms, d.silenceThreshold) ==> r.0.silentChunks == 0
    ensures r.1 <==> IsSilenceThresholdReached(r.0)
  {
    var next := if DetectSilence(rms, d.silenceThreshold)
      then d.(silentChunks := d.silentChunks + 1)
      else d.(silentChunks := 0);
    (next, IsSilenceThresholdReached(next))
  }

  /** Forgets the current run of silence; the configuration is kept. */
  function Reset(d: SilenceDetector): (r: SilenceDetector)
    ensures r.silentChunks == 0
    ensures SameConfiguration(r, d)
  {
    d.(silentChunks := 0)
  }

  /** The counter fields of the status report. */
  datatype Status = Status(
    silentChunks: nat,
    requiredChunks: int,
    targetSilenceSeconds: real,
    thresholdReached: bool)

  function GetStatus(d: SilenceDetector): (s: Status)
    ensures s.thresholdReached <==> IsSilenceThresholdReached(d)
    ensures s.thresholdReached <==> s.silentChunks >= s.requiredChunks
    ensures s.silentChunks == d.silentChunks && s.requiredChunks == d.requiredChunks
    ensures s.targetSilenceSeconds == d.silenceDuration
  {
    Status(d.silentChunks, d.requiredChunks, d.silenceDuration, IsSilenceThresholdReached(d))
  }

  /** What can happen to a detector: a chunk with its RMS energy, or a reset. */
  datatype Event = Chunk(rms: real) | ResetEvent

  function Step(d: SilenceDetector, e: Event): SilenceDetector
  {
    match e
    case Chunk(rms) => ProcessChunk(d, rms).0
    case ResetEvent => Reset(d)
  }

  /** The detector after the events, oldest first, have been applied to `d`. */
  function Replay(d: SilenceDetector, events: seq<Event>): SilenceDetector
    decreases |events|
  {
    if events == [] then d
    else Step(Replay(d, events[..|events| - 1]), events[|events| - 1])
  }

  predicate SilentChunk(e: Event, threshold: real)
  {
    e.Chunk? && DetectSilence(e.rms, threshold)
  }

  /** `k` is the length of the trailing run of silent chunks in `events`: the
      last `k` events are silent chunks, and the event before them, if any, is
      a reset or a chunk with sound. */
  predicate IsTrailingSilentRun(events: seq<Event>, threshold: real, k: nat)
  {
    && k <= |events|
    && (forall i :: |events| - k <= i < |events| ==> SilentChunk(events[i], threshold))
    && (k < |events| ==> !SilentChunk(events[|events| - 1 - k], threshold))
  }

  /** The trailing run is determined by the events. */
  lemma TrailingSilentRunUnique(events: seq<Event>, threshold: real, k1: nat, k2: nat)
    requires IsTrailingSilentRun(events, threshold, k1)
    requires IsTrailingSilentRun(events, threshold, k2)
    ensures k1 == k2
  {
  }

  /** The run-length invariant: starting from a detector with no silent chunks
      counted, the count always equals the number of silent chunks seen since
      construction or the last reset, and the configuration never changes. */
  lemma {:induction false} ReplayCountsTrailingSilentRun(d: SilenceDetector, events: seq<Event>)
    requires d.silentChunks == 0
    ensures SameConfiguration(Replay(d, events), d)
    ensures IsTrailingSilentRun(events, d.silenceThreshold, Replay(d, events).silentChunks)
    decreases |events|
  {
    if events != [] {
      var prefix := events[..|events| - 1];
      var e := events[|events| - 1];
      ReplayCountsTrailingSilentRun(d, prefix);
      var before := Replay(d, prefix);
      var c := before.silentChunks;
      assert Replay(d, events) == Step(before, e);
      if SilentChunk(e, d.silenceThreshold) {
        assert Replay(d, events).silentChunks == c + 1;
        forall i | |events| - (c + 1) <= i < |events|
          ensures SilentChunk(events[i], d.silenceThreshold)
        {
          if i < |events| - 1 {
            assert events[i] == prefix[i];
          }
        }
        if c + 1 < |events| {
          assert events[|events| - 1 - (c + 1)] == prefix[|prefix| - 1 - c];
        }
      } else {
        assert Replay(d, events).silentChunks == 0;
      }
    }
  }

  /** Seen from the outside: after any sequence of events the threshold is
      reached exactly when no chunks are required, or the last
      `requiredChunks` events are all silent chunks. */
  lemma ThresholdReachedIffRecentSilence(d: SilenceDetector, events: seq<Event>)
    requires d.silentChunks == 0
    ensures IsSilenceThresholdReached(Replay(d, events)) <==>
      (|| d.requiredChunks <= 0
       || (&& d.requiredChunks <= |events|
           && forall i :: |events| - d.requiredChunks <= i < |events| ==> SilentChunk(events[i], d.silenceThreshold)))
  {
    ReplayCountsTrailingSilentRun(d, events);
  }

  /** The flag returned by `ProcessChunk` after a history of events tells
      whether the chunk completes a run of `requiredChunks` silent chunks. */
  lemma ProcessChunkReportsRecentSilence(d: SilenceDetector, events: seq<Event>, rms: real)
    requires d.silentChunks == 0
    ensures ProcessChunk(Replay(d, events), rms).1 <==>
      IsSilenceThresholdReached(Replay(d, events + [Chunk(rms)]))
  {
  }

  /** The count after a history is the trailing silent run of that history,
      whichever way the run length is arrived at. */
  lemma ReplayCountIsTheTrailingRun(d: SilenceDetector, events: seq<Event>, k: nat)
    requires d.silentChunks == 0
    requires IsTrailingSilentRun(events, d.silenceThreshold, k)
    ensures Replay(d, events).silentChunks == k
  {
    ReplayCountsTrailingSilentRun(d, events);
    TrailingSilentRunUnique(events, d.silenceThreshold, Replay(d, events).silentChunks, k);
  }
}
