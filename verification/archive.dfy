/**
 * The clip archive: `writeClipToStorage` and `readClipFromStorage` of
 * src/motionDetection.py. The archive file is a plain sequence of frames with
 * no boundaries in it; clip boundaries live only in the list of recorded lengths.
 */
module ClipArchive {
  import opened Results

  /** Total number of frames that a list of clip lengths accounts for. */
  function Sum(lengths: seq<nat>): nat {
    if |lengths| == 0 then 0 else lengths[0] + Sum(lengths[1..])
  }

  lemma {:induction false} SumSnoc(lengths: seq<nat>, n: nat)
    ensures Sum(lengths + [n]) == Sum(lengths) + n
  {
    if |lengths| > 0 {
      assert (lengths + [n])[1..] == lengths[1..] + [n];
      SumSnoc(lengths[1..], n);
    }
  }

  /** Sums of prefixes grow with the prefix. */
  lemma {:induction false} SumPrefixMonotone(lengths: seq<nat>, i: nat, j: nat)
    requires i <= j <= |lengths|
    ensures Sum(lengths[..i]) <= Sum(lengths[..j])
  {
    if i < j {
      SumPrefixMonotone(lengths, i, j - 1);
      assert lengths[..j] == lengths[..j - 1] + [lengths[j - 1]];
      SumSnoc(lengths[..j - 1], lengths[j - 1]);
    }
  }

  /** The frames of a list of clips, one clip after the other. */
  function Flatten<F>(clips: seq<seq<F>>): seq<F> {
    if |clips| == 0 then [] else clips[0] + Flatten(clips[1..])
  }

  lemma {:induction false} FlattenSnoc<F>(clips: seq<seq<F>>, c: seq<F>)
    ensures Flatten(clips + [c]) == Flatten(clips) + c
  {
    if |clips| > 0 {
      assert (clips + [c])[1..] == clips[1..] + [c];
      FlattenSnoc(clips[1..], c);
    }
  }

  /** The recorded length of every clip, in order. */
  function LengthsOf<F>(clips: seq<seq<F>>): (lengths: seq<nat>)
    ensures |lengths| == |clips|
    ensures forall i :: 0 <= i < |clips| ==> lengths[i] == |clips[i]|
  {
    seq(|clips|, i requires 0 <= i < |clips| => |clips[i]|)
  }

  /**
   * Appends a clip to the archive and records its length. The archive only
   * grows at its end, and it keeps accounting for exactly the recorded lengths.
   */
  function WriteClip<F>(archive: seq<F>, lengths: seq<nat>, clip: seq<F>): (r: (seq<F>, seq<nat>))
    ensures |r.0| == |archive| + |clip|
    ensures r.0[..|archive|] == archive && r.0[|archive|..] == clip
    ensures |r.1| == |lengths| + 1 && r.1[..|lengths|] == lengths && r.1[|lengths|] == |clip|
    ensures |archive| == Sum(lengths) ==> |r.0| == Sum(r.1)
  {
    SumSnoc(lengths, |clip|);
    (archive + clip, lengths + [|clip|])
  }

  /** The archive and length list after writing the given clips, in order, to an empty archive. */
  function WriteAll<F>(clips: seq<seq<F>>): (r: (seq<F>, seq<nat>))
    ensures |r.1| == |clips|
  {
    if |clips| == 0 then ([], [])
    else
      var w := WriteAll(clips[..|clips| - 1]);
      WriteClip(w.0, w.1, clips[|clips| - 1])
  }

  /** Writing clips in order lays them out back to back and records each clip's length. */
  lemma {:induction false} WriteAllLayout<F>(clips: seq<seq<F>>)
    ensures WriteAll(clips).0 == Flatten(clips)
    ensures WriteAll(clips).1 == LengthsOf(clips)
    ensures |WriteAll(clips).0| == Sum(WriteAll(clips).1)
  {
    if |clips| > 0 {
      var init := clips[..|clips| - 1];
      var c := clips[|clips| - 1];
      WriteAllLayout(init);
      assert clips == init + [c];
      FlattenSnoc(init, c);
      SumSnoc(LengthsOf(init), |c|);
      assert LengthsOf(clips) == LengthsOf(init) + [|c|];
    }
  }

  /**
   * Reads `clipLength` frames, one at a time, from the read position `cursor`.
   * It fails as soon as the archive runs out of frames, never returning a short clip.
   * On success it also gives the new read position.
   */
  function ReadClip<F>(archive: seq<F>, cursor: nat, clipLength: nat): (r: Option<(seq<F>, nat)>)
    requires cursor <= |archive|
    ensures r.Some? <==> cursor + clipLength <= |archive|
    ensures r.Some? ==> r.value.0 == archive[cursor..cursor + clipLength]
    ensures r.Some? ==> r.value.1 == cursor + clipLength
    decreases clipLength
  {
    if clipLength == 0 then Some(([], cursor))
    else if cursor == |archive| then None
    else match ReadClip(archive, cursor + 1, clipLength - 1)
      case None => None
      case Some(rest) => Some(([archive[cursor]] + rest.0, rest.1))
  }

  /** Reads clips back in order, one per recorded length, from the read position `cursor`. */
  function ReadAll<F>(archive: seq<F>, cursor: nat, lengths: seq<nat>): (r: Option<seq<seq<F>>>)
    requires cursor <= |archive|
    ensures r.Some? ==> |r.value| == |lengths|
    decreases |lengths|
  {
    if |lengths| == 0 then Some([])
    else match ReadClip(archive, cursor, lengths[0])
      case None => None
      case Some(read) =>
        match ReadAll(archive, read.1, lengths[1..])
        case None => None
        case Some(rest) => Some([read.0] + rest)
  }

  /** Reading back by recorded lengths fails exactly when the lengths ask for more frames than remain. */
  lemma {:induction false} ReadAllFailsIffShort<F>(archive: seq<F>, cursor: nat, lengths: seq<nat>)
    requires cursor <= |archive|
    ensures ReadAll(archive, cursor, lengths).None? <==> cursor + Sum(lengths) > |archive|
    decreases |lengths|
  {
    if |lengths| > 0 && cursor + lengths[0] <= |archive| {
      ReadAllFailsIffShort(archive, cursor + lengths[0], lengths[1..]);
    }
  }

  lemma {:induction false} ReadFlattened<F>(before: seq<F>, clips: seq<seq<F>>, after: seq<F>)
    ensures ReadAll(before + Flatten(clips) + after, |before|, LengthsOf(clips)) == Some(clips)
    decreases |clips|
  {
    var archive := before + Flatten(clips) + after;
    if |clips| > 0 {
      var c := clips[0];
      assert archive == (before + c) + Flatten(clips[1..]) + after;
      assert archive[|before|..|before| + |c|] == c;
      assert LengthsOf(clips)[1..] == LengthsOf(clips[1..]);
      ReadFlattened(before + c, clips[1..], after);
      assert [c] + clips[1..] == clips;
    }
  }

  /** Round trip: clips written in order and read back by their recorded lengths come back unchanged. */
  lemma ArchiveRoundTrip<F>(clips: seq<seq<F>>)
    ensures ReadAll(WriteAll(clips).0, 0, WriteAll(clips).1) == Some(clips)
  {
    WriteAllLayout(clips);
    ReadFlattened([], clips, []);
    assert [] + Flatten(clips) + [] == Flatten(clips);
  }

  /** A read of more frames than were written fails rather than returning a short clip. */
  lemma ReadPastEndFails<F>(clips: seq<seq<F>>, extra: nat)
    requires extra > 0
    ensures ReadAll(WriteAll(clips).0, 0, WriteAll(clips).1 + [extra]).None?
  {
    var w := WriteAll(clips);
    WriteAllLayout(clips);
    SumSnoc(w.1, extra);
    ReadAllFailsIffShort(w.0, 0, w.1 + [extra]);
  }
}
