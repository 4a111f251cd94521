/**
 * The clip segmentation loop of `analyzeVideo` in src/motionDetection.py:
 * a hysteresis state machine folded over the decoded frames, each carrying
 * the motion decision of the three-frame difference detector.
 */
module Segmenter {
  import opened Results
  import opened Timestamps
  import opened ClipArchive

  /** Frame rate used for every timestamp (FPS_VAL). */
  const FPS_VAL: real := 30.0

  /** Consecutive motion-free frames that close a clip (END_BUFFER_CAP = 2 * FPS_VAL). */
  const END_BUFFER_CAP: nat := 60

  /** Most frames buffered for one clip (2 * FPS_VAL); later frames of the event are not stored. */
  const MAX_CLIP_FRAMES: nat := 60

  /**
   * One decoded frame and the detector's verdict for it, i.e. whether the
   * thresholded XOR of the two frame differences sums above SUM_THRESHOLD.
   * The verdict of the first two frames is never consulted: they only fill the window.
   */
  datatype Sample<F> = Sample(frame: F, motion: bool)

  /**
   * The loop's variables: `motionPeriod`, `endBuffer`, the `clip` buffer,
   * `clipStartTimes`, `clipStorageLengths` and the contents of the clip storage file.
   */
  datatype State<F> = State(
    motionPeriod: bool,
    endBuffer: nat,
    clip: seq<F>,
    clipStartTimes: seq<Hms>,
    clipStorageLengths: seq<nat>,
    archive: seq<F>)

  /** What analysis hands to review: start times, lengths, the archive and the frame count. */
  datatype Analysis<F> = Analysis(
    clipStartTimes: seq<Hms>,
    clipStorageLengths: seq<nat>,
    archive: seq<F>,
    frameCount: nat)

  /** The stream had no frame at all. */
  datatype AnalysisError = EmptyInput

  function Init<F>(): State<F> {
    State(false, 0, [], [], [], [])
  }

  /** Start time of a clip opened at 1-based frame `frameCount`. */
  function StartTime(frameCount: nat): Hms {
    ToHms(frameCount as real / FPS_VAL)
  }

  /**
   * The state the loop keeps at the end of every iteration: an idle loop holds
   * no frames and no count; an open clip holds at least its opening frame and
   * at most the cap; every clip written so far has between 1 and the cap
   * frames, the archive holds exactly those frames, and only the open clip
   * still lacks a recorded length.
   */
  predicate WellFormed<F>(st: State<F>) {
    && st.endBuffer < END_BUFFER_CAP
    && |st.clip| <= MAX_CLIP_FRAMES
    && (!st.motionPeriod ==> st.endBuffer == 0 && st.clip == [])
    && (st.motionPeriod ==> |st.clip| >= 1)
    && |st.clipStartTimes| == |st.clipStorageLengths| + (if st.motionPeriod then 1 else 0)
    && (forall i :: 0 <= i < |st.clipStorageLengths| ==> 1 <= st.clipStorageLengths[i] <= MAX_CLIP_FRAMES)
    && |st.archive| == Sum(st.clipStorageLengths)
  }

  /**
   * One iteration of the loop for the frame with 1-based index `frameCount`.
   * Frames 1 and 2 only fill the detector's window. A motion frame opens a
   * period (recording its start time) or resets the count of quiet frames; a
   * quiet frame in an open period adds to that count. The frame is buffered
   * while a period is open and the buffer is below the cap. When the count
   * reaches END_BUFFER_CAP the buffered clip is written and the period closes.
   */
  function Step<F>(st: State<F>, frameCount: nat, x: Sample<F>): (r: State<F>)
    requires WellFormed(st)
    ensures WellFormed(r)
    ensures |r.clipStartTimes| <= |st.clipStartTimes| + 1
  {
    if frameCount <= 2 then st
    else
      var starts := if x.motion && !st.motionPeriod then st.clipStartTimes + [StartTime(frameCount)]
                    else st.clipStartTimes;
      var period := x.motion || st.motionPeriod;
      var endBuffer := if x.motion then 0 else if st.motionPeriod then st.endBuffer + 1 else st.endBuffer;
      var clip := if period && |st.clip| < MAX_CLIP_FRAMES then st.clip + [x.frame] else st.clip;
      if endBuffer >= END_BUFFER_CAP then
        var w := WriteClip(st.archive, st.clipStorageLengths, clip);
        State(false, 0, [], starts, w.1, w.0)
      else
        State(period, endBuffer, clip, starts, st.clipStorageLengths, st.archive)
  }

  /**
   * The transitions of one iteration: which frames open, keep or close a
   * period, what the quiet-frame count becomes, and that the recorded start
   * times, lengths and archive are only ever appended to.
   */
  lemma StepTransitions<F>(st: State<F>, frameCount: nat, x: Sample<F>)
    requires WellFormed(st)
    ensures var r := Step(st, frameCount, x);
            && (frameCount <= 2 ==> r == st)
            && (frameCount > 2 && x.motion ==> r.motionPeriod && r.endBuffer == 0)
            && (frameCount > 2 && !x.motion && st.motionPeriod ==>
                  if st.endBuffer + 1 < END_BUFFER_CAP then r.motionPeriod && r.endBuffer == st.endBuffer + 1
                  else !r.motionPeriod)
            && (frameCount > 2 && !x.motion && !st.motionPeriod ==> r == st)
            && r.clipStartTimes == st.clipStartTimes
                 + (if frameCount > 2 && x.motion && !st.motionPeriod then [StartTime(frameCount)] else [])
            && |r.clipStorageLengths| == |st.clipStorageLengths|
                 + (if st.motionPeriod && !r.motionPeriod then 1 else 0)
            && r.clipStorageLengths[..|st.clipStorageLengths|] == st.clipStorageLengths
            && |st.archive| <= |r.archive| && r.archive[..|st.archive|] == st.archive
  {
  }

  /** The state after the loop has consumed every frame of `s`, frame index |s| last. */
  function Run<F>(s: seq<Sample<F>>): (r: State<F>)
    ensures WellFormed(r)
    ensures |r.clipStartTimes| <= |s|
  {
    if |s| == 0 then Init()
    else Step(Run(s[..|s| - 1]), |s|, s[|s| - 1])
  }

  /** After the stream ends, a clip that is still open is written as it stands. */
  function Flush<F>(st: State<F>): (r: State<F>)
    requires WellFormed(st)
    ensures !r.motionPeriod
    ensures r.clipStartTimes == st.clipStartTimes
    ensures |r.clipStartTimes| == |r.clipStorageLengths|
    ensures forall i :: 0 <= i < |r.clipStorageLengths| ==> 1 <= r.clipStorageLengths[i] <= MAX_CLIP_FRAMES
    ensures |r.archive| == Sum(r.clipStorageLengths)
    ensures |st.archive| <= |r.archive| && r.archive[..|st.archive|] == st.archive
    ensures st.motionPeriod ==> r.archive[|st.archive|..] == st.clip
    ensures !st.motionPeriod ==> r == st
  {
    if st.motionPeriod then
      var w := WriteClip(st.archive, st.clipStorageLengths, st.clip);
      State(false, 0, [], st.clipStartTimes, w.1, w.0)
    else st
  }

  /**
   * The analysis of one video: run the loop over every frame, flush the open
   * clip, and fail for a stream with no frames.
   */
  function Analyze<F>(s: seq<Sample<F>>): (r: Result<Analysis<F>, AnalysisError>)
    ensures r.Failure? <==> |s| == 0
    ensures r.Success? ==>
              && r.value.frameCount == |s|
              && |r.value.clipStartTimes| == |r.value.clipStorageLengths| <= |s|
              && (forall i :: 0 <= i < |r.value.clipStorageLengths| ==>
                    1 <= r.value.clipStorageLengths[i] <= MAX_CLIP_FRAMES)
              && |r.value.archive| == Sum(r.value.clipStorageLengths)
  {
    var st := Flush(Run(s));
    if |s| == 0 then Failure(EmptyInput)
    else Success(Analysis(st.clipStartTimes, st.clipStorageLengths, st.archive, |s|))
  }
}
