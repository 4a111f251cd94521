/**
 * Properties of the clips that `analyzeVideo` produces, derived from the
 * declarative description in SegmenterSpec.
 */
module SegmenterProperties {
  import opened Results
  import opened Timestamps
  import opened ClipArchive
  import opened Segmenter
  import opened SegmenterSpec
  import opened SegmenterRun

  lemma OnsetExtend<F>(p: seq<Sample<F>>, x: Sample<F>, k: int)
    requires k <= |p|
    ensures OnsetAt(p + [x], k) <==> OnsetAt(p, k)
  {
    ActiveExtend(p, x, k - 1);
  }

  /**
   * Onsets lists exactly the clip-opening frames, in strictly increasing order.
   */
  lemma {:induction false} OnsetsExactly<F>(s: seq<Sample<F>>)
    ensures forall i :: 0 <= i < |Onsets(s)| ==> OnsetAt(s, Onsets(s)[i])
    ensures forall i, j :: 0 <= i < j < |Onsets(s)| ==> Onsets(s)[i] < Onsets(s)[j]
    ensures forall k :: OnsetAt(s, k) ==> k in Onsets(s)
  {
    if |s| > 0 {
      var p := s[..|s| - 1];
      var x := s[|s| - 1];
      assert s == p + [x];
      OnsetsExactly(p);
      OnsetsExtend(p, x);
      var os := Onsets(p);
      forall i | 0 <= i < |os|
        ensures OnsetAt(s, os[i])
      {
        RunOnsetBound(p, i);
        OnsetExtend(p, x, os[i]);
      }
      forall k | OnsetAt(s, k)
        ensures k in Onsets(s)
      {
        if k < |s| {
          OnsetExtend(p, x, k);
        }
      }
      forall i | 0 <= i < |os|
        ensures os[i] < |s|
      {
        RunOnsetBound(p, i);
      }
    }
  }

  /** Every clip-opening frame lies within the stream and after the detector's two warm-up frames. */
  lemma RunOnsetBound<F>(s: seq<Sample<F>>, i: nat)
    requires i < |Onsets(s)|
    ensures 3 <= Onsets(s)[i] <= |s|
  {
    RunInv(s);
  }

  /**
   * Two clips open at least END_BUFFER_CAP + 1 frames apart: a motion frame
   * less than that after the previous one joins the clip already open.
   */
  lemma OnsetsSeparated<F>(s: seq<Sample<F>>, i: nat)
    requires i + 1 < |Onsets(s)|
    ensures Onsets(s)[i] + END_BUFFER_CAP < Onsets(s)[i + 1]
  {
    OnsetsExactly(s);
    var a := Onsets(s)[i];
    var b := Onsets(s)[i + 1];
    assert OnsetAt(s, a) && OnsetAt(s, b) && a < b;
  }

  /** Two motion frames at most END_BUFFER_CAP apart belong to one clip: the later one opens none. */
  lemma BurstsMerge<F>(s: seq<Sample<F>>, a: int, b: int)
    requires MotionAt(s, a) && MotionAt(s, b) && a < b <= a + END_BUFFER_CAP
    ensures b !in Onsets(s)
  {
    OnsetsExactly(s);
    assert ActiveAt(s, b - 1);
  }

  /**
   * A stream yields a clip exactly when some judged frame shows motion.
   */
  lemma {:induction false} ClipsIffMotion<F>(s: seq<Sample<F>>)
    ensures |Onsets(s)| > 0 <==> exists k :: MotionAt(s, k)
  {
    if |Onsets(s)| > 0 {
      OnsetsExactly(s);
      assert MotionAt(s, Onsets(s)[0]);
    }
    if k :| MotionAt(s, k) {
      MotionGivesOnset(s, k);
    }
  }

  lemma {:induction false} MotionGivesOnset<F>(s: seq<Sample<F>>, k: int)
    requires MotionAt(s, k)
    ensures |Onsets(s)| > 0
    decreases |s|
  {
    var p := s[..|s| - 1];
    var x := s[|s| - 1];
    assert s == p + [x];
    OnsetsExtend(p, x);
    if k < |s| {
      assert MotionAt(p, k);
      MotionGivesOnset(p, k);
    } else if ActiveAt(s, k - 1) {
      var i :| k - 1 - END_BUFFER_CAP < i <= k - 1 && MotionAt(s, i);
      assert MotionAt(p, i);
      MotionGivesOnset(p, i);
    }
  }

  /** With no motion frame at all, analysis yields no clip, no start time and an empty archive. */
  lemma NoMotionNoClips<F>(s: seq<Sample<F>>)
    requires |s| > 0
    requires forall k :: !MotionAt(s, k)
    ensures Analyze(s).Success?
    ensures Analyze(s).value.clipStartTimes == []
    ensures Analyze(s).value.clipStorageLengths == []
    ensures Analyze(s).value.archive == []
  {
    AnalyzeMatchesSpec(s);
    ClipsIffMotion(s);
    assert ClipsAt(s, []) == [];
  }

  /**
   * Hysteresis: after the last motion frame m, the clip stays open while
   * fewer than END_BUFFER_CAP quiet frames have followed, with that many
   * counted; the END_BUFFER_CAP-th quiet frame closes it.
   */
  lemma HysteresisBoundary<F>(s: seq<Sample<F>>, m: int)
    requires MotionAt(s, m)
    requires forall i :: m < i <= |s| ==> !MotionAt(s, i)
    ensures Run(s).motionPeriod <==> |s| - m < END_BUFFER_CAP
    ensures Run(s).motionPeriod ==> Run(s).endBuffer == |s| - m
  {
    RunActivity(s);
    LastMotionWindow(s, m);
    if Run(s).motionPeriod {
      LastMotionUnique(s, m, |s| - Run(s).endBuffer);
    }
  }

  /** After the last motion frame m, the window ending at the last frame holds motion iff m is in it. */
  lemma LastMotionWindow<F>(s: seq<Sample<F>>, m: int)
    requires MotionAt(s, m)
    requires forall i :: m < i <= |s| ==> !MotionAt(s, i)
    ensures ActiveAt(s, |s|) <==> |s| - m < END_BUFFER_CAP
  {
    var n := |s|;
    if ActiveAt(s, n) {
      var i :| n - END_BUFFER_CAP < i <= n && MotionAt(s, i);
      assert i <= m;
    }
    if n - m < END_BUFFER_CAP {
      assert ActiveAt(s, n);
    }
  }

  /** Two frames that are each the last motion frame are the same frame. */
  lemma LastMotionUnique<F>(s: seq<Sample<F>>, m: int, m': int)
    requires MotionAt(s, m) && MotionAt(s, m')
    requires forall i :: m < i <= |s| ==> !MotionAt(s, i)
    requires forall i :: m' < i <= |s| ==> !MotionAt(s, i)
    ensures m == m'
  {
  }

  /** The loop's period flag and quiet-frame count, read off the description. */
  lemma RunActivity<F>(s: seq<Sample<F>>)
    ensures Run(s).motionPeriod <==> ActiveAt(s, |s|)
    ensures Run(s).motionPeriod ==> MotionAt(s, |s| - Run(s).endBuffer)
    ensures Run(s).motionPeriod ==> forall i :: |s| - Run(s).endBuffer < i <= |s| ==> !MotionAt(s, i)
  {
    RunInv(s);
    InvActivity(s, Run(s));
  }

  lemma InvActivity<F>(s: seq<Sample<F>>, st: State<F>)
    requires Inv(s, st)
    ensures st.motionPeriod <==> ActiveAt(s, |s|)
    ensures st.motionPeriod ==> MotionAt(s, |s| - st.endBuffer)
    ensures st.motionPeriod ==> forall i :: |s| - st.endBuffer < i <= |s| ==> !MotionAt(s, i)
  {
  }

  /**
   * Every clip holds between 1 and MAX_CLIP_FRAMES frames: the frames from its
   * opening frame on. Every clip but the last is closed by hysteresis and
   * holds exactly MAX_CLIP_FRAMES: no frame past the MAX_CLIP_FRAMES-th from its
   * opening frame is stored, so the quiet frames that close it are stored only
   * up to that point.
   */
  lemma ClipLengths<F>(s: seq<Sample<F>>, i: nat)
    requires i < |Onsets(s)|
    ensures 1 <= |ClipOf(s, Onsets(s)[i])| <= MAX_CLIP_FRAMES
    ensures ClipOf(s, Onsets(s)[i]) == Frames(s)[Onsets(s)[i] - 1 .. Onsets(s)[i] - 1 + |ClipOf(s, Onsets(s)[i])|]
    ensures i + 1 < |Onsets(s)| ==> |ClipOf(s, Onsets(s)[i])| == MAX_CLIP_FRAMES
  {
    RunOnsetBound(s, i);
    if i + 1 < |Onsets(s)| {
      OnsetsSeparated(s, i);
      RunOnsetBound(s, i + 1);
    }
  }

  /**
   * Start times are recorded in chronological order, each at the opening
   * frame's offset frameCount / FPS_VAL, and no earlier than frame 3.
   */
  lemma StartTimesChronological<F>(s: seq<Sample<F>>)
    requires |s| > 0
    ensures var ts := Analyze(s).value.clipStartTimes;
            && (forall i :: 0 <= i < |ts| ==> Total(ts[i]) >= 3.0 / FPS_VAL)
            && (forall i, j :: 0 <= i < j < |ts| ==> Before(ts[i], ts[j]))
  {
    AnalyzeMatchesSpec(s);
    OnsetsExactly(s);
    var os := Onsets(s);
    var ts := Analyze(s).value.clipStartTimes;
    forall i | 0 <= i < |ts|
      ensures Total(ts[i]) >= 3.0 / FPS_VAL
    {
      RunOnsetBound(s, i);
    }
    forall i, j | 0 <= i < j < |ts|
      ensures Before(ts[i], ts[j])
    {
      BeforeIsTimeOrder(ts[i], ts[j]);
      assert os[i] < os[j];
    }
  }
}
