/**
 * The induction over the frame stream: the loop's state after every prefix
 * satisfies SegmenterSpec.Inv, so the analysis is the declarative one.
 * The invariant is passed along as `Inv(..) == true`, which the verifier
 * carries as one fact instead of re-checking each of its clauses.
 */
module SegmenterRun {
  import opened Results
  import opened ClipArchive
  import opened Segmenter
  import opened SegmenterSpec

  /** The frame-by-frame recursion of Run, stated for the last frame. */
  lemma RunSnoc<F>(s: seq<Sample<F>>)
    requires |s| > 0
    ensures s == s[..|s| - 1] + [s[|s| - 1]]
    ensures Run(s) == Step(Run(s[..|s| - 1]), |s[..|s| - 1]| + 1, s[|s| - 1])
  {
    SplitLast(s);
  }

  /** Carries Inv across equal streams as one fact. */
  lemma InvSameStream<F>(s: seq<Sample<F>>, t: seq<Sample<F>>, st: State<F>)
    requires s == t && Inv(t, st) == true
    ensures Inv(s, st) == true
  {
  }

  /** Carries Inv across equal states as one fact. */
  lemma InvSameState<F>(s: seq<Sample<F>>, st: State<F>, st': State<F>)
    requires st == st' && Inv(s, st') == true
    ensures Inv(s, st) == true
  {
  }

  /** The loop's state after any prefix of frames agrees with the description. */
  lemma {:induction false} RunInv<F>(s: seq<Sample<F>>)
    ensures Inv(s, Run(s)) == true
  {
    if |s| == 0 {
      InitInv<F>();
    } else {
      var p := s[..|s| - 1];
      var x := s[|s| - 1];
      RunInv(p);
      var st := Run(p);
      RunSnoc(s);
      StepInv(p, x, st);
      InvSameStream(s, p + [x], Step(st, |p| + 1, x));
      InvSameState(s, Run(s), Step(st, |p| + 1, x));
    }
  }

  /**
   * The analysis of a non-empty stream is the description: one start time per
   * clip-opening frame, and the archive and lengths of writing the clips
   * opened at those frames, in order.
   */
  lemma AnalyzeMatchesSpec<F>(s: seq<Sample<F>>)
    requires |s| > 0
    ensures Analyze(s) == Success(ExpectedAnalysis(s))
  {
    var st := Run(s);
    RunInv(s);
    var os := Onsets(s);
    if st.motionPeriod {
      ClipsSnoc(s, os);
      WriteAllSnoc(ClipsAt(s, os[..|os| - 1]), st.clip);
    }
  }
}
