/**
 * The review loop of `clipDisplay` in src/motionDetection.py: each stored
 * clip is read back from the archive and shown until the operator answers
 * "y" (retain) or "c" (clear); any other answer replays it.
 */
module Review {
  import opened Results
  import opened ClipArchive

  datatype Decision = Retain | Discard | Replay

  /** "y" retains, "c" clears, and every other answer replays the clip. */
  function ParseDecision(response: string): (d: Decision)
    ensures d == Retain <==> response == "y"
    ensures d == Discard <==> response == "c"
  {
    if response == "y" then Retain
    else if response == "c" then Discard
    else Replay
  }

  /**
   * The loop's variables: the two parallel lists (shrunk by clears),
   * `clipCounter`, `yesStreak` and `longestYesStreak`.
   */
  datatype Session<T> = Session(
    clipStartTimes: seq<T>,
    clipStorageLengths: seq<nat>,
    clipCounter: nat,
    yesStreak: nat,
    longestYesStreak: nat)

  /** What review returns: the pruned lists and the longest run of retains. */
  datatype Outcome<T> = Outcome(clipStartTimes: seq<T>, clipStorageLengths: seq<nat>, longestYesStreak: nat)

  /**
   * ArchiveDesync: a read found fewer frames than the recorded length (the
   * source then fails on the missing clip). AwaitingInput: the answers ran
   * out while a clip was still undecided (the source waits for more input).
   */
  datatype ReviewError = ArchiveDesync | AwaitingInput

  predicate Valid<T>(ss: Session<T>) {
    |ss.clipStartTimes| == |ss.clipStorageLengths| && ss.clipCounter <= |ss.clipStartTimes|
  }

  /** The list without its entry at index k (Python's `pop(k)`). */
  function RemoveAt<T>(xs: seq<T>, k: nat): (r: seq<T>)
    requires k < |xs|
    ensures |r| == |xs| - 1
    ensures forall i :: 0 <= i < k ==> r[i] == xs[i]
    ensures forall i :: k <= i < |r| ==> r[i] == xs[i + 1]
  {
    xs[..k] + xs[k + 1..]
  }

  /**
   * Reviews every clip of a file. The archive is read from its start, clip
   * after clip, using the recorded lengths; `responses` are the operator's
   * answers in the order given.
   */
  function ClipDisplay<T, F>(archive: seq<F>, clipStartTimes: seq<T>, clipStorageLengths: seq<nat>,
                             responses: seq<string>): (r: Result<Outcome<T>, ReviewError>)
    requires |clipStartTimes| == |clipStorageLengths|
    ensures r.Success? ==> |r.value.clipStartTimes| == |r.value.clipStorageLengths| <= |clipStartTimes|
  {
    if |clipStorageLengths| == 0 then Success(Outcome(clipStartTimes, clipStorageLengths, 0))
    else ShowClip(archive, 0, Session(clipStartTimes, clipStorageLengths, 0, 0, 0), responses)
  }

  /** Reads the clip at `clipCounter` (or finishes when there is none left). */
  function ShowClip<T, F>(archive: seq<F>, cursor: nat, ss: Session<T>, responses: seq<string>)
    : (r: Result<Outcome<T>, ReviewError>)
    requires cursor <= |archive| && Valid(ss)
    ensures r.Success? ==> |r.value.clipStartTimes| == |r.value.clipStorageLengths| <= |ss.clipStartTimes|
    decreases |responses|, 1
  {
    if ss.clipCounter == |ss.clipStartTimes| then
      Success(Outcome(ss.clipStartTimes, ss.clipStorageLengths, ss.longestYesStreak))
    else match ReadClip(archive, cursor, ss.clipStorageLengths[ss.clipCounter])
      case None => Failure(ArchiveDesync)
      case Some(read) => Respond(archive, read.1, ss, responses)
  }

  /** Takes answers for the clip just read until one of them decides it. */
  function Respond<T, F>(archive: seq<F>, cursor: nat, ss: Session<T>, responses: seq<string>)
    : (r: Result<Outcome<T>, ReviewError>)
    requires cursor <= |archive| && Valid(ss) && ss.clipCounter < |ss.clipStartTimes|
    ensures r.Success? ==> |r.value.clipStartTimes| == |r.value.clipStorageLengths| <= |ss.clipStartTimes|
    decreases |responses|, 0
  {
    if |responses| == 0 then Failure(AwaitingInput)
    else match ParseDecision(responses[0])
      case Retain =>
        var streak := ss.yesStreak + 1;
        var longest := if streak > ss.longestYesStreak then streak else ss.longestYesStreak;
        ShowClip(archive, cursor, ss.(clipCounter := ss.clipCounter + 1, yesStreak := streak,
                                      longestYesStreak := longest), responses[1..])
      case Discard =>
        ShowClip(archive, cursor, ss.(clipStartTimes := RemoveAt(ss.clipStartTimes, ss.clipCounter),
                                      clipStorageLengths := RemoveAt(ss.clipStorageLengths, ss.clipCounter),
                                      yesStreak := 0), responses[1..])
      case Replay => Respond(archive, cursor, ss, responses[1..])
  }
}
