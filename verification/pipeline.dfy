/**
 * One file end to end: analysis writes the archive and the clip lists, then
 * review reads that archive back with those lists.
 */
module Pipeline {
  import opened Results
  import opened ClipArchive
  import opened Segmenter
  import opened SegmenterSpec
  import opened SegmenterRun
  import opened Review
  import opened ReviewSpec

  /**
   * Reading the analysis archive back by its recorded lengths yields, in
   * order, the clip of each clip-opening frame: that frame and the frames
   * after it, up to the cap.
   */
  lemma AnalysisReadsBack<F>(s: seq<Sample<F>>)
    requires |s| > 0
    ensures Analyze(s).Success?
    ensures ReadAll(Analyze(s).value.archive, 0, Analyze(s).value.clipStorageLengths)
            == Some(ClipsAt(s, Onsets(s)))
  {
    AnalyzeMatchesSpec(s);
    ArchiveRoundTrip(ClipsAt(s, Onsets(s)));
  }

  /**
   * Reviewing what analysis produced never runs past the archive: it waits
   * for answers until every clip is decided, and then keeps exactly the clips
   * answered "y" together with their lengths.
   */
  lemma ReviewAfterAnalysis<F>(s: seq<Sample<F>>, responses: seq<string>)
    requires |s| > 0
    ensures Analyze(s).Success?
    ensures var a := Analyze(s).value;
            var n := |a.clipStartTimes|;
            var ds := Effective(responses);
            ClipDisplay(a.archive, a.clipStartTimes, a.clipStorageLengths, responses)
            == if |ds| < n then Failure(AwaitingInput)
               else Success(Outcome(Keep(a.clipStartTimes, ds[..n]), Keep(a.clipStorageLengths, ds[..n]),
                                    LongestRun(ds[..n])))
  {
    var a := Analyze(s).value;
    var n := |a.clipStartTimes|;
    var ds := Effective(responses);
    ClipDisplayMatchesSpec(a.archive, a.clipStartTimes, a.clipStorageLengths, responses);
    var reach := if |ds| + 1 < n then |ds| + 1 else n;
    SumPrefixMonotone(a.clipStorageLengths, reach, n);
    assert a.clipStorageLengths[..n] == a.clipStorageLengths;
  }
}
