# Motion-clip extraction and review, modelled in Dafny

This project models the core of a tool for field researchers that scans long
fixed-camera video recordings, cuts out short clips that contain motion, and
then lets an operator keep or clear each clip. The model covers the core of
`src/motionDetection.py`:

- **Clip segmentation** (`analyzeVideo`): a hysteresis state machine folded
  over the decoded frames. Each frame carries the detector's motion verdict
  (`Segmenter.Sample`). Frames are numbered from 1. Frames 1 and 2 only fill
  the detector's three-frame window. A motion frame opens a clip and records
  its start time. Any motion frame resets the count of quiet frames. Each quiet
  frame in an open clip increments that count. While a clip is open, frames are
  buffered up to `2 * FPS_VAL` = 60. When the count reaches `END_BUFFER_CAP` =
  60, the buffered clip is written. At end of stream, a clip that is still open
  is written as it stands. A stream with no frames is an error (`EmptyInput`).
  Module `Segmenter`.
- **A declarative description of the segmentation** (`SegmenterSpec`). Frame k
  opens a clip exactly when it shows motion and none of the 60 frames before it
  does. The clip stored for frame k is frame k and the frames after it, at most
  60 of them. `SegmenterRun.RunInv` proves, by induction over the frames, that
  the loop state after every prefix agrees with this description, and
  `SegmenterRun.AnalyzeMatchesSpec` concludes that the state machine produces
  exactly this. `SegmenterProperties` derives the consequences: no empty
  clips, the length cap, the hysteresis boundary, start times in order, no
  clips without motion. One consequence is worth knowing. The cap and the end buffer
  are both 60 frames, so every clip closed by hysteresis holds exactly its
  first 60 frames (`ClipLengths`). No frame later than the 60th from the
  opening frame is ever stored: the quiet frames inside that span are stored
  (for a single motion frame, 59 of the 60 quiet frames that close the clip),
  and the rest of the quiet tail is not. Only the clip still open at end of
  stream can be shorter than 60 frames.
- **The clip archive** (`writeClipToStorage`, `readClipFromStorage`). The
  archive is an append-only sequence of frames, and clip boundaries exist only
  in the list of recorded lengths. A read takes exactly the requested number of
  frames from the read position. It fails when the archive runs out and never
  returns a short clip. Module `ClipArchive`.
- **The review protocol** (`clipDisplay`). For each clip, the session reads
  the clip from the archive and then takes answers. `"y"` retains the clip,
  `"c"` clears it (pops it from both parallel lists), and any other answer
  replays it. The session also tracks the longest run of consecutive `"y"`
  answers. Module `Review`. `ReviewSpec` states the result without the loop:
  replays are ignored, the i-th deciding answer settles the i-th clip, and the
  retained clips survive in order in both lists.
- **Clip start times** (`hmsString`): floor division of a real number of
  seconds into hours, minutes and seconds. Module `Timestamps`.
- **End to end** (`Pipeline`): review of what analysis produced never runs
  past the archive, and it reads back exactly the analysed clips.

Frames are an opaque type parameter `F`. The motion verdict of a frame stands
for `pixelSum > SUM_THRESHOLD` computed by the image operations, which are not
modelled. The answers are a given sequence of strings: the answers to the
per-clip "Response?" prompts, i.e. those after the "y" that starts the review.

How some behaviours of the code are represented:
- While a clip is open, every frame is buffered, quiet or not, until the
  buffer holds 60 frames (src/motionDetection.py:169-170).
- An empty stream ends the whole program in the code (`sys.exit()`). The model
  returns `Failure(EmptyInput)` for that file, which is the only observable
  outcome for that file.
- A failed read in review returns `None`, and iterating over it fails. The
  model reports this as `Failure(ArchiveDesync)`.
- When the answers run out, the code waits for more input. The model reports
  `Failure(AwaitingInput)`.

## Model

| member | source | states |
|---|---|---|
| Timestamps.ToHms | src/motionDetection.py:57-66 | hours·3600 + minutes·60 + seconds equals the input; 0 ≤ minutes < 60 and 0 ≤ seconds < 60; hours ≥ 0 exactly when the input is ≥ 0 |
| Timestamps.ToHmsUnique | src/motionDetection.py:57-66 | any decomposition with minutes and seconds in clock range that sums to x is the one computed from x: the split is unique |
| Timestamps.BeforeIsTimeOrder | src/motionDetection.py:57-66 | on decompositions in clock range, field-by-field order agrees with the order of the offsets they denote, both directions |
| ClipArchive.WriteClip | src/motionDetection.py:94-101 | the archive only grows at its end, by exactly the clip; the clip's length is appended to the lengths; an archive whose length is the sum of the lengths keeps that property |
| ClipArchive.WriteAll | src/motionDetection.py:94-101 | repeated writes record one length per clip written; ClipArchive.WriteAllLayout states the archive and lengths in full |
| ClipArchive.WriteAllLayout | src/motionDetection.py:94-101 | writing clips in order lays them back to back, records each clip's length in order, and the archive length is the sum of the lengths |
| ClipArchive.ReadClip | src/motionDetection.py:83-92 | reading n frames one at a time succeeds exactly when n frames remain; on success it returns exactly the next n frames and moves the read position past them |
| ClipArchive.ReadAll | src/motionDetection.py:83-92 | a successful sequence of reads returns one clip per recorded length; ClipArchive.ReadAllFailsIffShort and ClipArchive.ArchiveRoundTrip state when it fails and what it returns |
| ClipArchive.ReadAllFailsIffShort | src/motionDetection.py:83-92 | reading clips in order by recorded lengths fails exactly when the lengths ask for more frames than remain |
| ClipArchive.ArchiveRoundTrip | src/motionDetection.py:83-101 | clips written in order and read back in order by their recorded lengths come back unchanged |
| ClipArchive.ReadPastEndFails | src/motionDetection.py:83-92 | after writing a list of clips, asking for one more non-empty clip fails instead of returning a short one |
| Segmenter.Step | src/motionDetection.py:138-175 | one iteration keeps the loop's invariant: quiet count < 60, buffer ≤ 60 frames, idle means an empty buffer and zero count, open means a non-empty buffer, one more start time than lengths while open, every length in [1, 60], archive length equal to the sum of the lengths; at most one start time is recorded per frame |
| Segmenter.StepTransitions | src/motionDetection.py:138-175 | a judged motion frame opens or keeps the period with count 0; a quiet frame in an open period counts up and closes the period on the 60th; a quiet frame while idle and frames 1 and 2 change nothing; a start time is recorded only when an idle loop meets motion; lengths gain one entry exactly when a period closes; the lists and the archive only grow at their ends |
| Segmenter.Run | src/motionDetection.py:131-185 | after any number of frames the loop state satisfies the invariant stated for Step, and there are no more start times than frames |
| Segmenter.Flush | src/motionDetection.py:186-188 | at end of stream an open clip is written as it stands; afterwards start times and lengths have equal counts, every length is in [1, 60], and the archive length is the sum of the lengths |
| Segmenter.Analyze | src/motionDetection.py:103-202 | fails exactly for a stream with no frames; otherwise reports the frame count, as many start times as lengths (no more than frames), every length in [1, 60], and an archive whose length is the sum of the lengths |
| SegmenterRun.RunInv | src/motionDetection.py:131-185 | after any prefix of frames, the loop is open exactly when one of the last 60 frames shows motion. While open, the quiet count is the distance to the last motion frame, and the buffer is the clip of the latest opening frame. The start times are those of all opening frames, and the archive and lengths are those of writing every completed clip in order |
| SegmenterRun.AnalyzeMatchesSpec | src/motionDetection.py:131-188 | for a non-empty stream, the analysis is the description: one start time per clip-opening frame, at frameCount / FPS_VAL, and the archive and lengths of writing, in order, the clip of each opening frame |
| SegmenterProperties.OnsetsExactly | src/motionDetection.py:158-161 | the recorded openings are exactly the frames that open a clip, in strictly increasing order, both directions |
| SegmenterProperties.RunOnsetBound | src/motionDetection.py:138-147 | every clip-opening frame lies between frame 3 and the last frame: the two warm-up frames never open a clip |
| SegmenterProperties.OnsetsSeparated | src/motionDetection.py:158-175 | consecutive clips open more than 60 frames apart |
| SegmenterProperties.BurstsMerge | src/motionDetection.py:158-167 | two motion frames at most 60 frames apart belong to one clip: the later one opens none |
| SegmenterProperties.ClipsIffMotion | src/motionDetection.py:158-161 | a stream yields at least one clip exactly when some judged frame shows motion |
| SegmenterProperties.NoMotionNoClips | src/motionDetection.py:142-188 | with no judged frame (frame 3 on) showing motion, analysis succeeds with no start times, no lengths and an empty archive |
| SegmenterProperties.HysteresisBoundary | src/motionDetection.py:163-175 | after the last motion frame m, the clip is still open after frame n exactly when n − m < 60, with quiet count n − m: 59 quiet frames keep it open, the 60th closes it |
| SegmenterProperties.RunActivity | src/motionDetection.py:158-175 | the loop is open exactly when one of the last 60 frames shows motion; while open, the quiet count reaches back to a motion frame with no motion after it |
| SegmenterProperties.ClipLengths | src/motionDetection.py:169-175 | every clip holds 1 to 60 consecutive frames starting at its opening frame; every clip but the last holds exactly 60 |
| SegmenterProperties.StartTimesChronological | src/motionDetection.py:138-161 | start times are in strictly increasing order and none is earlier than frame 3's offset |
| Review.ClipDisplay | src/motionDetection.py:204-264 | a successful review returns start-time and length lists of equal length, no longer than the input; ReviewSpec.ClipDisplayMatchesSpec states which entries survive and the longest streak |
| Review.ShowClip | src/motionDetection.py:223-229 | from any session state, a successful finish has lists of equal length, no longer than the session's; the read of the current clip is ClipArchive.ReadClip, and ReviewSpec.ShowClipMatches states the result |
| Review.Respond | src/motionDetection.py:231-260 | from any session state, a successful finish has lists of equal length, no longer than the session's; ReviewSpec.RespondMatches states the result |
| Review.ParseDecision | src/motionDetection.py:244-258 | an answer retains exactly when it is "y" and clears exactly when it is "c"; anything else replays |
| Review.RemoveAt | src/motionDetection.py:252-253 | popping index k keeps the entries before k and shifts those after it down by one |
| ReviewSpec.ReplayIgnored | src/motionDetection.py:244-259 | an answer other than "y" or "c" can be inserted anywhere without changing the deciding answers |
| ReviewSpec.KeepIsSubsequence | src/motionDetection.py:244-257 | the surviving list is the order-preserving subsequence at the positions answered Retain; the same positions are taken from every list |
| ReviewSpec.ClearOne | src/motionDetection.py:251-257 | clearing only clip k and retaining the others removes exactly entry k |
| ReviewSpec.KeepAllRetained | src/motionDetection.py:244-250 | retaining every clip leaves the list unchanged |
| ReviewSpec.TrailingRetainsIsRun | src/motionDetection.py:244-255 | the running streak is the longest run of retains that ends at the latest decision |
| ReviewSpec.LongestRunIsLongest | src/motionDetection.py:244-255 | the reported streak is the length of some run of consecutive retains, and no run is longer |
| ReviewSpec.ShowClipMatches | src/motionDetection.py:223-229 | from any point of the session, the outcome is the declarative outcome of the decisions so far followed by the remaining deciding answers |
| ReviewSpec.RespondMatches | src/motionDetection.py:231-260 | taking answers for a clip already read reaches the same declarative outcome |
| ReviewSpec.ClipDisplayMatchesSpec | src/motionDetection.py:204-264 | review keeps, in lock-step in both lists, exactly the clips whose deciding answer is "y", in order. It reports the longest run of consecutive "y" (a "c" breaks the run). It waits when answers run out before every clip is decided, and it reports a desync when a recorded length runs past the archive |
| ReviewSpec.ReplayChangesNothing | src/motionDetection.py:258-259 | inserting a replay answer anywhere leaves the review outcome unchanged, so the lists and the streak are unchanged |
| Pipeline.AnalysisReadsBack | src/motionDetection.py:169-188 | the archive analysis writes, read back in order by the recorded lengths, yields the clip of every opening frame in order |
| Pipeline.ReviewAfterAnalysis | src/motionDetection.py:223-229 | reviewing the output of analysis never hits a desync: it waits for answers until every clip is decided, then keeps exactly the clips answered "y" and their lengths |

## Left out

- `FileVideoStream` (src/FileVideoStream.py) and the busy-wait `continue` at src/motionDetection.py:133-134: a background decoding thread and a queue. The model takes the decoded frames as a sequence, in decode order.
- `convertFrame`, `getFrameDiffs`, `getThreshold`, `getPixelSum` (src/motionDetection.py:38-55): OpenCV image operations. Each frame carries an abstract motion verdict instead.
- Video encoding: the archive is written with the lossy XVID codec (src/motionDetection.py:128) and read back through `cv2.VideoCapture` (src/motionDetection.py:221), so real frames come back re-encoded. The model treats encoding and decoding as the identity on the opaque frame type: frame order and count are modelled, pixel values after re-encoding are not. ClipArchive.ArchiveRoundTrip and Pipeline.AnalysisReadsBack are round trips in that sense.
- The video writer, video capture, `imshow`, `waitKey` and its 'q' key, and the `watch` early break (src/motionDetection.py:153-156): display and file I/O. The archive is a sequence, and frames shown during review are not modelled.
- The "Ready? [y]" prompt loop before review (src/motionDetection.py:209-215): it runs only when there is at least one clip, consumes answers until one is "y", and changes no state. The modelled answers start after that "y".
- The "last clip" prompt text (src/motionDetection.py:239-242): `clipCounter == len(clipStartTimes)` never holds inside the loop, and both branches read one answer.
- `getAllFiles`, argument parsing, storage-file naming and deletion, and the module-level batch driver (src/motionDetection.py:68-81, 313-427): filesystem and command-line handling.
- `infoPrint` and all `print` progress messages: text and CSV reporting, and timing through `time.time()`.
- Floating point: start times are computed on exact reals. `round(secs, 2)` and the string rendering in `hmsString` are left out. For integer frame counts divided by 30, the floors agree with the floating-point ones.
- ClipArchive.ReadClip: requires the read position to lie within the archive, which a sequential reader always satisfies.
- Review.ClipDisplay: requires the start-time list and the length list to have equal length. The only caller (src/motionDetection.py:392-414) passes the output of analysis, which has equal lengths (`Segmenter.Analyze`). In the source a longer length list would go through unchanged, since the loop is bounded by the start-time list (src/motionDetection.py:223). An empty length list skips review and returns the start times unchanged with a longest streak of 0 (src/motionDetection.py:208, 261-264). A shorter non-empty one raises an IndexError (src/motionDetection.py:227) when the clip counter reaches its end, if the answers last that long. None of these cases is modelled.
