/**
 * What a review session decides, stated without the loop: replays are
 * ignored, the i-th remaining decision settles the i-th clip, the retained
 * clips survive in their order, and the reported streak is the longest run of
 * consecutive retains. ClipDisplayMatchesSpec proves that `ClipDisplay` does this.
 */
module ReviewSpec {
  import opened Results
  import opened ClipArchive
  import opened Review

  /** The deciding answers: every answer other than a replay, in order. */
  function Effective(responses: seq<string>): (ds: seq<Decision>)
    ensures |ds| <= |responses|
    ensures forall i :: 0 <= i < |ds| ==> ds[i] != Replay
  {
    if |responses| == 0 then []
    else
      var d := ParseDecision(responses[0]);
      (if d == Replay then [] else [d]) + Effective(responses[1..])
  }

  lemma {:induction false} EffectiveConcat(a: seq<string>, b: seq<string>)
    ensures Effective(a + b) == Effective(a) + Effective(b)
  {
    if |a| > 0 {
      assert (a + b)[0] == a[0];
      assert (a + b)[1..] == a[1..] + b;
      EffectiveConcat(a[1..], b);
    } else {
      assert a + b == b;
    }
  }

  /** An answer that neither retains nor clears can be inserted anywhere without changing the decisions. */
  lemma ReplayIgnored(a: seq<string>, response: string, b: seq<string>)
    requires response != "y" && response != "c"
    ensures Effective(a + [response] + b) == Effective(a + b)
  {
    EffectiveConcat(a + [response], b);
    EffectiveConcat(a, [response]);
    EffectiveConcat(a, b);
    assert Effective([response]) == [];
  }

  /** The entries of xs whose decision is Retain, in their order. */
  function Keep<T>(xs: seq<T>, ds: seq<Decision>): (r: seq<T>)
    requires |xs| == |ds|
    ensures |r| <= |xs|
  {
    if |xs| == 0 then []
    else Keep(xs[..|xs| - 1], ds[..|ds| - 1]) + (if ds[|ds| - 1] == Retain then [xs[|xs| - 1]] else [])
  }

  /** The positions whose decision is Retain, in increasing order. */
  function RetainedIndices(ds: seq<Decision>): (idx: seq<nat>)
    ensures forall j :: 0 <= j < |idx| ==> idx[j] < |ds| && ds[idx[j]] == Retain
    ensures forall j, k :: 0 <= j < k < |idx| ==> idx[j] < idx[k]
    ensures forall i :: 0 <= i < |ds| && ds[i] == Retain ==> i in idx
  {
    if |ds| == 0 then []
    else RetainedIndices(ds[..|ds| - 1]) + (if ds[|ds| - 1] == Retain then [|ds| - 1] else [])
  }

  /**
   * Keep is the order-preserving subsequence at the retained positions; the
   * same positions are kept from every list, so parallel lists stay aligned.
   */
  lemma {:induction false} KeepIsSubsequence<T>(xs: seq<T>, ds: seq<Decision>)
    requires |xs| == |ds|
    ensures |Keep(xs, ds)| == |RetainedIndices(ds)|
    ensures forall j :: 0 <= j < |Keep(xs, ds)| ==> Keep(xs, ds)[j] == xs[RetainedIndices(ds)[j]]
  {
    if |xs| > 0 {
      KeepIsSubsequence(xs[..|xs| - 1], ds[..|ds| - 1]);
    }
  }

  /** Clearing only clip k and retaining every other removes exactly entry k. */
  lemma {:induction false} ClearOne<T>(xs: seq<T>, ds: seq<Decision>, k: nat)
    requires |xs| == |ds| && k < |xs|
    requires ds[k] == Discard
    requires forall i :: 0 <= i < |ds| && i != k ==> ds[i] == Retain
    ensures Keep(xs, ds) == RemoveAt(xs, k)
  {
    var n := |xs|;
    if n - 1 == k {
      KeepAllRetained(xs[..n - 1], ds[..n - 1]);
      assert RemoveAt(xs, k) == xs[..n - 1];
    } else {
      ClearOne(xs[..n - 1], ds[..n - 1], k);
      assert RemoveAt(xs, k) == RemoveAt(xs[..n - 1], k) + [xs[n - 1]];
    }
  }

  lemma {:induction false} KeepAllRetained<T>(xs: seq<T>, ds: seq<Decision>)
    requires |xs| == |ds|
    requires forall i :: 0 <= i < |ds| ==> ds[i] == Retain
    ensures Keep(xs, ds) == xs
  {
    if |xs| > 0 {
      KeepAllRetained(xs[..|xs| - 1], ds[..|ds| - 1]);
    }
  }

  /** Retains at positions i up to (not including) j. */
  predicate AllRetain(ds: seq<Decision>, i: int, j: int)
    requires 0 <= i <= j <= |ds|
  {
    forall t :: i <= t < j ==> ds[t] == Retain
  }

  /** A run of `len` retains starts at position i. */
  predicate RunAt(ds: seq<Decision>, i: int, len: nat) {
    0 <= i && i + len <= |ds| && AllRetain(ds, i, i + len)
  }

  /** Number of consecutive retains at the end of ds. */
  function TrailingRetains(ds: seq<Decision>): (t: nat)
    ensures t <= |ds|
  {
    if |ds| == 0 || ds[|ds| - 1] != Retain then 0 else 1 + TrailingRetains(ds[..|ds| - 1])
  }

  /** The longest run of consecutive retains ending anywhere in ds. */
  function LongestRun(ds: seq<Decision>): (m: nat)
    ensures m <= |ds|
  {
    if |ds| == 0 then 0
    else
      var before := LongestRun(ds[..|ds| - 1]);
      var ending := TrailingRetains(ds);
      if before < ending then ending else before
  }

  lemma {:induction false} TrailingRetainsIsRun(ds: seq<Decision>)
    ensures AllRetain(ds, |ds| - TrailingRetains(ds), |ds|)
    ensures forall i :: 0 <= i <= |ds| && AllRetain(ds, i, |ds|) ==> |ds| - i <= TrailingRetains(ds)
  {
    if |ds| > 0 {
      var p := ds[..|ds| - 1];
      TrailingRetainsIsRun(p);
      forall i | 0 <= i <= |ds| && AllRetain(ds, i, |ds|)
        ensures |ds| - i <= TrailingRetains(ds)
      {
        if i < |ds| {
          assert ds[|ds| - 1] == Retain;
          assert AllRetain(p, i, |p|);
        }
      }
    }
  }

  /** LongestRun is the length of a run of retains in ds, and no run is longer. */
  lemma {:induction false} LongestRunIsLongest(ds: seq<Decision>)
    ensures exists i :: RunAt(ds, i, LongestRun(ds))
    ensures forall i, j :: 0 <= i <= j <= |ds| && AllRetain(ds, i, j) ==> j - i <= LongestRun(ds)
  {
    if |ds| == 0 {
      assert LongestRun(ds) == 0 && RunAt(ds, 0, 0);
    } else {
      var p := ds[..|ds| - 1];
      LongestRunIsLongest(p);
      TrailingRetainsIsRun(ds);
      if LongestRun(p) < TrailingRetains(ds) {
        assert RunAt(ds, |ds| - LongestRun(ds), LongestRun(ds));
      } else {
        var i :| RunAt(p, i, LongestRun(p));
        assert RunAt(ds, i, LongestRun(ds));
      }
      forall i, j | 0 <= i <= j <= |ds| && AllRetain(ds, i, j)
        ensures j - i <= LongestRun(ds)
      {
        if j == |ds| {
        } else {
          assert AllRetain(p, i, j);
        }
      }
    }
  }

  /**
   * The result the review loop should reach, given the deciding answers ds.
   * Clips are read back in order, one per decision plus the one awaiting an
   * answer; a read that runs past the archive is a desync.
   */
  function ExpectedOutcome<T, F>(archive: seq<F>, starts: seq<T>, lengths: seq<nat>, ds: seq<Decision>)
    : Result<Outcome<T>, ReviewError>
    requires |starts| == |lengths|
  {
    var n := |starts|;
    var reach := if |ds| + 1 < n then |ds| + 1 else n;
    if Sum(lengths[..reach]) > |archive| then Failure(ArchiveDesync)
    else if |ds| < n then Failure(AwaitingInput)
    else Success(Outcome(Keep(starts, ds[..n]), Keep(lengths, ds[..n]), LongestRun(ds[..n])))
  }

  /**
   * How a session part-way through relates to the original lists after the
   * deciding answers `done`: the decided prefix is pruned, the rest untouched,
   * the read position is past the decided clips.
   */
  ghost predicate Reviewed<T, F>(archive: seq<F>, starts: seq<T>, lengths: seq<nat>, done: seq<Decision>,
                           cursor: nat, ss: Session<T>)
  {
    var d := |done|;
    && |starts| == |lengths|
    && d <= |starts|
    && (forall i :: 0 <= i < d ==> done[i] != Replay)
    && ss.clipStartTimes == Keep(starts[..d], done) + starts[d..]
    && ss.clipStorageLengths == Keep(lengths[..d], done) + lengths[d..]
    && ss.clipCounter == |Keep(starts[..d], done)|
    && ss.yesStreak == TrailingRetains(done)
    && ss.longestYesStreak == LongestRun(done)
    && cursor == Sum(lengths[..d])
  }

  lemma KeepSnoc<T>(xs: seq<T>, done: seq<Decision>, d: Decision)
    requires |done| < |xs|
    ensures Keep(xs[..|done| + 1], done + [d])
            == Keep(xs[..|done|], done) + (if d == Retain then [xs[|done|]] else [])
  {
    assert xs[..|done| + 1][..|done|] == xs[..|done|];
    assert (done + [d])[..|done|] == done;
  }

  lemma KeepLengthsAgree<T>(starts: seq<T>, lengths: seq<nat>, done: seq<Decision>)
    requires |done| <= |starts| == |lengths|
    ensures |Keep(starts[..|done|], done)| == |Keep(lengths[..|done|], done)|
  {
    KeepIsSubsequence(starts[..|done|], done);
    KeepIsSubsequence(lengths[..|done|], done);
  }

  lemma {:induction false} ShowClipMatches<T, F>(archive: seq<F>, starts: seq<T>, lengths: seq<nat>,
                                                 done: seq<Decision>, cursor: nat, ss: Session<T>,
                                                 responses: seq<string>)
    requires cursor <= |archive| && Valid(ss)
    requires Reviewed(archive, starts, lengths, done, cursor, ss)
    ensures ShowClip(archive, cursor, ss, responses) == ExpectedOutcome(archive, starts, lengths, done + Effective(responses))
    decreases |responses|, 1
  {
    var n := |starts|;
    var d := |done|;
    var ds := done + Effective(responses);
    KeepLengthsAgree(starts, lengths, done);
    if d == n {
      assert starts[..n] == starts && lengths[..n] == lengths;
      assert starts[n..] == [] && lengths[n..] == [];
      assert ss.clipStartTimes == Keep(starts, done);
      assert ss.clipStorageLengths == Keep(lengths, done);
      assert ss.clipCounter == |ss.clipStartTimes|;
      assert ds[..n] == done;
      assert cursor == Sum(lengths);
    } else {
      var k := |Keep(starts[..d], done)|;
      assert ss.clipCounter == k < |ss.clipStartTimes|;
      assert ss.clipStorageLengths[k] == lengths[d];
      assert lengths[..d + 1] == lengths[..d] + [lengths[d]];
      SumSnoc(lengths[..d], lengths[d]);
      var reach := if |ds| + 1 < n then |ds| + 1 else n;
      SumPrefixMonotone(lengths, d + 1, reach);
      if cursor + lengths[d] <= |archive| {
        RespondMatches(archive, starts, lengths, done, cursor + lengths[d], ss, responses);
      }
    }
  }

  lemma {:induction false} RespondMatches<T, F>(archive: seq<F>, starts: seq<T>, lengths: seq<nat>,
                                                done: seq<Decision>, cursor: nat, ss: Session<T>,
                                                responses: seq<string>)
    requires cursor <= |archive| && Valid(ss)
    requires |done| < |starts| == |lengths|
    requires Reviewed(archive, starts, lengths, done, Sum(lengths[..|done|]), ss)
    requires cursor == Sum(lengths[..|done| + 1])
    ensures ss.clipCounter < |ss.clipStartTimes|
    ensures Respond(archive, cursor, ss, responses) == ExpectedOutcome(archive, starts, lengths, done + Effective(responses))
    decreases |responses|, 0
  {
    var n := |starts|;
    var d := |done|;
    KeepLengthsAgree(starts, lengths, done);
    var k := |Keep(starts[..d], done)|;
    assert ss.clipCounter == k < |ss.clipStartTimes|;
    if |responses| == 0 {
      assert done + Effective(responses) == done;
    } else {
      var dec := ParseDecision(responses[0]);
      var rest := responses[1..];
      assert Effective(responses) == (if dec == Replay then [] else [dec]) + Effective(rest);
      if dec == Replay {
        assert Effective(responses) == Effective(rest);
        assert Respond(archive, cursor, ss, responses) == Respond(archive, cursor, ss, rest);
        RespondMatches(archive, starts, lengths, done, cursor, ss, rest);
      } else {
        var done' := done + [dec];
        assert done' + Effective(rest) == done + Effective(responses);
        if dec == Retain {
          var streak := ss.yesStreak + 1;
          var next := ss.(clipCounter := k + 1, yesStreak := streak,
                          longestYesStreak := if streak > ss.longestYesStreak then streak else ss.longestYesStreak);
          RetainKeepsReviewed(archive, starts, lengths, done, cursor, ss);
          ShowClipMatches(archive, starts, lengths, done', cursor, next, rest);
        } else {
          var next := ss.(clipStartTimes := RemoveAt(ss.clipStartTimes, k),
                          clipStorageLengths := RemoveAt(ss.clipStorageLengths, k), yesStreak := 0);
          DiscardKeepsReviewed(archive, starts, lengths, done, cursor, ss);
          ShowClipMatches(archive, starts, lengths, done', cursor, next, rest);
        }
      }
    }
  }

  /** A retain moves the counter past the clip and extends the streak. */
  lemma RetainKeepsReviewed<T, F>(archive: seq<F>, starts: seq<T>, lengths: seq<nat>,
                                  done: seq<Decision>, cursor: nat, ss: Session<T>)
    requires |done| < |starts| == |lengths|
    requires Reviewed(archive, starts, lengths, done, Sum(lengths[..|done|]), ss)
    requires cursor == Sum(lengths[..|done| + 1])
    ensures var streak := ss.yesStreak + 1;
            Reviewed(archive, starts, lengths, done + [Retain], cursor,
                     ss.(clipCounter := ss.clipCounter + 1, yesStreak := streak,
                         longestYesStreak := if streak > ss.longestYesStreak then streak else ss.longestYesStreak))
  {
    var d := |done|;
    var done' := done + [Retain];
    KeepSnoc(starts, done, Retain);
    KeepSnoc(lengths, done, Retain);
    assert starts[d..] == [starts[d]] + starts[d + 1..];
    assert lengths[d..] == [lengths[d]] + lengths[d + 1..];
    assert done'[..d] == done;
  }

  /** A clear pops the clip from both lists at the counter and resets the streak. */
  lemma DiscardKeepsReviewed<T, F>(archive: seq<F>, starts: seq<T>, lengths: seq<nat>,
                                   done: seq<Decision>, cursor: nat, ss: Session<T>)
    requires |done| < |starts| == |lengths|
    requires Reviewed(archive, starts, lengths, done, Sum(lengths[..|done|]), ss)
    requires cursor == Sum(lengths[..|done| + 1])
    ensures ss.clipCounter < |ss.clipStartTimes| == |ss.clipStorageLengths|
    ensures Reviewed(archive, starts, lengths, done + [Discard], cursor,
                     ss.(clipStartTimes := RemoveAt(ss.clipStartTimes, ss.clipCounter),
                         clipStorageLengths := RemoveAt(ss.clipStorageLengths, ss.clipCounter),
                         yesStreak := 0))
  {
    var d := |done|;
    var done' := done + [Discard];
    KeepLengthsAgree(starts, lengths, done);
    KeepSnoc(starts, done, Discard);
    KeepSnoc(lengths, done, Discard);
    var k := ss.clipCounter;
    assert starts[d..] == [starts[d]] + starts[d + 1..];
    assert lengths[d..] == [lengths[d]] + lengths[d + 1..];
    assert RemoveAt(ss.clipStartTimes, k) == Keep(starts[..d + 1], done') + starts[d + 1..];
    assert RemoveAt(ss.clipStorageLengths, k) == Keep(lengths[..d + 1], done') + lengths[d + 1..];
    assert done'[..d] == done;
  }

  /**
   * Review keeps, of the clip start times and lengths in lock-step, exactly
   * the clips whose deciding answer is "y", in order; reports the longest run
   * of consecutive "y"; waits when the answers run out; and reports a desync
   * when a recorded length runs past the archive.
   */
  lemma ClipDisplayMatchesSpec<T, F>(archive: seq<F>, starts: seq<T>, lengths: seq<nat>, responses: seq<string>)
    requires |starts| == |lengths|
    ensures ClipDisplay(archive, starts, lengths, responses) == ExpectedOutcome(archive, starts, lengths, Effective(responses))
  {
    if |lengths| > 0 {
      var ss := Session(starts, lengths, 0, 0, 0);
      assert starts[..0] == [] && lengths[..0] == [];
      assert Reviewed(archive, starts, lengths, [], 0, ss);
      ShowClipMatches(archive, starts, lengths, [], 0, ss, responses);
      assert [] + Effective(responses) == Effective(responses);
    }
  }

  /** Replays never change the outcome: only the deciding answers matter. */
  lemma ReplayChangesNothing<T, F>(archive: seq<F>, starts: seq<T>, lengths: seq<nat>,
                                   a: seq<string>, response: string, b: seq<string>)
    requires |starts| == |lengths|
    requires response != "y" && response != "c"
    ensures ClipDisplay(archive, starts, lengths, a + [response] + b) == ClipDisplay(archive, starts, lengths, a + b)
  {
    ClipDisplayMatchesSpec(archive, starts, lengths, a + [response] + b);
    ClipDisplayMatchesSpec(archive, starts, lengths, a + b);
    ReplayIgnored(a, response, b);
  }
}
