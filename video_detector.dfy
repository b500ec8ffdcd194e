/** Video detection: sample keyframes, run the image detector on each one
    in extraction order, and aggregate. The mean of the per-frame scores is
    the video's score, compared strictly with 0.5; the judge component is the
    mean of the per-frame judge scores that are present; the explanation is
    the judge's prose about a digest (if any) followed by a summary that
    counts the frames above the threshold and quotes the three best-scoring
    ones. With no frame extracted, a fixed zero result is returned at once.

    The image detector is an oracle here: `replies[i]` is what
    `detect_ai_image` returns for frame `i`, in the loose shape the code
    accepts (a record whose keys may be missing, or a bare value). */
module VideoDetector {
  import opened Common
  import opened FrameRanking
  import Reasoning
  import Aggregate
  import Keyframes
  import Judge
  import ImageDetector

  /* ---------------------------------------------------------------- */
  /* The per-frame judge call that the video pipeline does not use     */
  /* ---------------------------------------------------------------- */

  const UnavailableReasoning: string := "Reasoning unavailable due to API error."

  /** `float(token)` succeeded with a value in [0,1]; `parse` stands for `float()`. */
  predicate Qualifies(parse: string -> Option<real>, token: string) {
    parse(token).Some? && InUnit(parse(token).value)
  }

  /** The score read off the judge's text: the first qualifying token, else 0.5. */
  function ScanScore(tokens: seq<string>, parse: string -> Option<real>): (r: real)
    ensures InUnit(r)
  {
    if tokens == [] then Judge.Neutral
    else if Qualifies(parse, tokens[0]) then parse(tokens[0]).value
    else ScanScore(tokens[1..], parse)
  }

  lemma {:induction false} ScanPicksFirstQualifying(tokens: seq<string>, parse: string -> Option<real>, k: nat)
    requires k < |tokens| && Qualifies(parse, tokens[k])
    requires forall j :: 0 <= j < k ==> !Qualifies(parse, tokens[j])
    ensures ScanScore(tokens, parse) == parse(tokens[k]).value
  {
    if k > 0 {
      assert !Qualifies(parse, tokens[0]);
      ScanPicksFirstQualifying(tokens[1..], parse, k - 1);
    }
  }

  lemma {:induction false} ScanDefaultsToNeutral(tokens: seq<string>, parse: string -> Option<real>)
    requires forall j :: 0 <= j < |tokens| ==> !Qualifies(parse, tokens[j])
    ensures ScanScore(tokens, parse) == Judge.Neutral
  {
    if tokens != [] {
      ScanDefaultsToNeutral(tokens[1..], parse);
    }
  }

  /** `gemini_reason_about_frame`: `response` is the stripped text of the judge's reply,
      or the exception raised by opening the frame or calling the judge. */
  method GeminiReasonAboutFrame(response: Outcome<string>, parse: string -> Option<real>)
    returns (score: real, text: string)
    ensures response.Err? ==> score == Judge.Neutral && text == UnavailableReasoning
    ensures response.Ok? ==> text == response.value && score == ScanScore(Words(text), parse)
    ensures InUnit(score)
  {
    if response.Err? {
      return Judge.Neutral, UnavailableReasoning;
    }
    text := response.value;
    var tokens := Words(text);
    score := Judge.Neutral;
    for k := 0 to |tokens|
      invariant score == Judge.Neutral
      invariant ScanScore(tokens, parse) == ScanScore(tokens[k..], parse)
    {
      assert tokens[k..][1..] == tokens[k + 1..];
      match parse(tokens[k])
      case Some(v) =>
        if 0.0 <= v <= 1.0 {
          score := v;
          break;
        }
      case None =>
        continue;
    }
  }

  /* ---------------------------------------------------------------- */
  /* Per-frame analysis                                               */
  /* ---------------------------------------------------------------- */

  datatype ImageReply =
    | Record(finalScore: Option<real>, reasoning: Option<string>, gemini: Option<real>)
    | Bare(value: Option<real>)

  /** `res.get('final_score', 0.0)`, or `res if res is not None else 0.0` */
  function ReplyScore(r: ImageReply): real {
    match r
    case Record(s, _, _) => s.GetOr(0.0)
    case Bare(v) => v.GetOr(0.0)
  }

  /** `res.get('reasoning', '')`, later read as `d.get('reasoning') or ''` */
  function ReplyReasoning(r: ImageReply): string {
    match r
    case Record(_, note, _) => note.GetOr("")
    case Bare(_) => ""
  }

  /** `res.get('gemini', None)`; a bare value has no judge score */
  function ReplyGemini(r: ImageReply): Option<real> {
    match r
    case Record(_, _, g) => g
    case Bare(_) => None
  }

  /** What `detect_ai_image` actually returns: a record with every key present. */
  function ReplyOf(res: ImageDetector.ImageResult): (r: ImageReply)
    ensures ReplyScore(r) == res.finalScore
    ensures ReplyReasoning(r) == res.reasoning
    ensures ReplyGemini(r) == Some(res.gemini)
  {
    Record(Some(res.finalScore), Some(res.reasoning), Some(res.gemini))
  }

  function DetailOf(frame: string, reply: ImageReply, i: nat): FrameDetail {
    FrameDetail(frame, ReplyScore(reply), ReplyReasoning(reply), ReplyGemini(reply), i)
  }

  function Scores(ds: seq<FrameDetail>): (xs: seq<real>)
    ensures |xs| == |ds| && forall i :: 0 <= i < |ds| ==> xs[i] == ds[i].score
  {
    seq(|ds|, i requires 0 <= i < |ds| => ds[i].score)
  }

  /** The loop over the extracted frames: one detail per frame, in extraction order. */
  method AnalyzeFrames(frames: seq<string>, replies: seq<ImageReply>)
    returns (frameScores: seq<real>, frameDetails: seq<FrameDetail>)
    requires |replies| >= |frames|
    ensures |frameDetails| == |frames|
    ensures forall i :: 0 <= i < |frames| ==> frameDetails[i] == DetailOf(frames[i], replies[i], i)
    ensures frameScores == Scores(frameDetails)
    ensures InExtractionOrder(frameDetails)
  {
    frameScores, frameDetails := [], [];
    for i := 0 to |frames|
      invariant |frameDetails| == i
      invariant forall k :: 0 <= k < i ==> frameDetails[k] == DetailOf(frames[k], replies[k], k)
      invariant frameScores == Scores(frameDetails)
    {
      var res := replies[i];
      var score, frReason, frGemini;
      match res {
        case Record(s, note, g) =>
          score, frReason, frGemini := s.GetOr(0.0), note.GetOr(""), g;
        case Bare(v) =>
          score, frReason, frGemini := v.GetOr(0.0), "", None;
      }
      frameScores := frameScores + [score];
      frameDetails := frameDetails + [FrameDetail(frames[i], score, frReason, frGemini, i)];
    }
  }

  /* ---------------------------------------------------------------- */
  /* Aggregation and the summary                                      */
  /* ---------------------------------------------------------------- */

  /** `[d['gemini'] for d in frame_details if d.get('gemini') is not None]` */
  function GeminiValues(ds: seq<FrameDetail>): (xs: seq<real>)
    ensures |xs| <= |ds|
  {
    if ds == [] then []
    else (if ds[0].gemini.Some? then [ds[0].gemini.value] else []) + GeminiValues(ds[1..])
  }

  /** The positions, counted from `base`, of the frames that have a judge score. */
  function PresentIndices(ds: seq<FrameDetail>, base: nat): seq<nat> {
    if ds == [] then []
    else (if ds[0].gemini.Some? then [base] else []) + PresentIndices(ds[1..], base + 1)
  }

  lemma {:induction false} PresentIndicesLength(ds: seq<FrameDetail>, base: nat)
    ensures |PresentIndices(ds, base)| == |GeminiValues(ds)|
  {
    if ds != [] {
      PresentIndicesLength(ds[1..], base + 1);
    }
  }

  lemma {:induction false} PresentIndicesBounds(ds: seq<FrameDetail>, base: nat)
    ensures forall j :: 0 <= j < |PresentIndices(ds, base)| ==>
              base <= PresentIndices(ds, base)[j] < base + |ds|
  {
    if ds != [] {
      var idx, idx' := PresentIndices(ds, base), PresentIndices(ds[1..], base + 1);
      PresentIndicesBounds(ds[1..], base + 1);
      if ds[0].gemini.Some? {
        assert idx == [base] + idx';
        forall j | 1 <= j < |idx| ensures base <= idx[j] < base + |ds| {
          assert idx[j] == idx'[j - 1];
        }
      } else {
        assert idx == idx';
      }
    }
  }

  predicate Increasing(s: seq<nat>) {
    forall j, j' :: 0 <= j < j' < |s| ==> s[j] < s[j']
  }

  lemma {:induction false} PresentIndicesIncrease(ds: seq<FrameDetail>, base: nat)
    ensures Increasing(PresentIndices(ds, base))
  {
    if ds != [] {
      var idx, idx' := PresentIndices(ds, base), PresentIndices(ds[1..], base + 1);
      PresentIndicesIncrease(ds[1..], base + 1);
      PresentIndicesBounds(ds[1..], base + 1);
      if ds[0].gemini.Some? {
        assert idx == [base] + idx';
        forall j, j' | 0 <= j < j' < |idx| ensures idx[j] < idx[j'] {
          assert idx[j'] == idx'[j' - 1];
          if j > 0 {
            assert idx[j] == idx'[j - 1];
          }
        }
      } else {
        assert idx == idx';
      }
    }
  }

  /** The `j`-th present index points at a frame whose judge score is the `j`-th averaged value. */
  predicate SelectsAt(ds: seq<FrameDetail>, base: nat, j: nat) {
    var idx, xs := PresentIndices(ds, base), GeminiValues(ds);
    j < |idx| && j < |xs| && base <= idx[j] < base + |ds| && ds[idx[j] - base].gemini == Some(xs[j])
  }

  lemma {:induction false} PresentIndicesSelect(ds: seq<FrameDetail>, base: nat)
    ensures forall j: nat :: j < |PresentIndices(ds, base)| ==> SelectsAt(ds, base, j)
  {
    if ds != [] {
      var idx, xs := PresentIndices(ds, base), GeminiValues(ds);
      var idx', xs' := PresentIndices(ds[1..], base + 1), GeminiValues(ds[1..]);
      PresentIndicesSelect(ds[1..], base + 1);
      PresentIndicesLength(ds, base);
      if ds[0].gemini.Some? {
        assert idx == [base] + idx' && xs == [ds[0].gemini.value] + xs';
        forall j: nat | j < |idx| ensures SelectsAt(ds, base, j) {
          if j > 0 {
            assert SelectsAt(ds[1..], base + 1, j - 1);
            assert ds[1..][idx'[j - 1] - (base + 1)] == ds[idx'[j - 1] - base];
          }
        }
      } else {
        assert idx == idx' && xs == xs';
        forall j: nat | j < |idx| ensures SelectsAt(ds, base, j) {
          assert SelectsAt(ds[1..], base + 1, j);
          assert ds[1..][idx'[j] - (base + 1)] == ds[idx'[j] - base];
        }
      }
    }
  }

  lemma {:induction false} PresentIndicesCover(ds: seq<FrameDetail>, base: nat)
    ensures forall k :: 0 <= k < |ds| && ds[k].gemini.Some? ==> base + k in PresentIndices(ds, base)
  {
    if ds != [] {
      var idx, idx' := PresentIndices(ds, base), PresentIndices(ds[1..], base + 1);
      PresentIndicesCover(ds[1..], base + 1);
      forall k | 0 <= k < |ds| && ds[k].gemini.Some? ensures base + k in idx {
        if k > 0 {
          assert ds[1..][k - 1] == ds[k];
          assert base + k in idx';
        }
      }
    }
  }

  /** The judge scores averaged are those of the frames that have one, each once,
      in frame order: the `j`-th value is the judge score of the `j`-th such frame. */
  lemma GeminiValuesInFrameOrder(ds: seq<FrameDetail>)
    ensures var idx, xs := PresentIndices(ds, 0), GeminiValues(ds);
            && |idx| == |xs|
            && (forall j :: 0 <= j < |idx| ==> idx[j] < |ds| && ds[idx[j]].gemini == Some(xs[j]))
            && Increasing(idx)
            && (forall k :: 0 <= k < |ds| && ds[k].gemini.Some? ==> k in idx)
  {
    PresentIndicesLength(ds, 0);
    PresentIndicesIncrease(ds, 0);
    PresentIndicesSelect(ds, 0);
    PresentIndicesCover(ds, 0);
    var idx, xs := PresentIndices(ds, 0), GeminiValues(ds);
    forall j | 0 <= j < |idx| ensures idx[j] < |ds| && ds[idx[j]].gemini == Some(xs[j]) {
      assert SelectsAt(ds, 0, j);
    }
  }

  /** Exactly the judge scores that are present are averaged. */
  lemma {:induction false} GeminiValuesArePresentScores(ds: seq<FrameDetail>)
    ensures forall x :: x in GeminiValues(ds) <==> exists k :: 0 <= k < |ds| && ds[k].gemini == Some(x)
    ensures |GeminiValues(ds)| == 0 <==> forall k :: 0 <= k < |ds| ==> ds[k].gemini.None?
  {
    if ds != [] {
      GeminiValuesArePresentScores(ds[1..]);
      forall x ensures x in GeminiValues(ds) <==> exists k :: 0 <= k < |ds| && ds[k].gemini == Some(x) {
        if x in GeminiValues(ds[1..]) {
          var k :| 0 <= k < |ds[1..]| && ds[1..][k].gemini == Some(x);
          assert ds[k + 1].gemini == Some(x);
        }
        if k :| 0 <= k < |ds| && ds[k].gemini == Some(x) {
          if k > 0 {
            assert ds[1..][k - 1].gemini == Some(x);
          }
        }
      }
      if forall k :: 0 <= k < |ds| ==> ds[k].gemini.None? {
        assert forall k :: 0 <= k < |ds[1..]| ==> ds[1..][k].gemini.None?;
      } else {
        var k :| 0 <= k < |ds| && ds[k].gemini.Some?;
        assert ds[k].gemini.value in GeminiValues(ds);
      }
    }
  }

  /** Judge scores in [0,1] average to a value in [0,1]; with none present the mean is 0.0. */
  lemma GeminiMeanInUnit(ds: seq<FrameDetail>)
    requires forall k :: 0 <= k < |ds| && ds[k].gemini.Some? ==> InUnit(ds[k].gemini.value)
    ensures InUnit(Aggregate.Mean(GeminiValues(ds)))
  {
    var xs := GeminiValues(ds);
    GeminiValuesArePresentScores(ds);
    forall i | 0 <= i < |xs| ensures InUnit(xs[i]) {
      assert xs[i] in xs;
    }
    Aggregate.MeanInUnit(xs);
  }

  const ExampleNoteLimit: nat := 120

  /** `f"frame {d['index']+1}: {d['score']*100:.1f}% - {short[:120]}"`; `pct1` renders `f"{x*100:.1f}"`. */
  function Example(d: FrameDetail, pct1: real -> string): string {
    "frame " + NatToString(d.index + 1) + ": " + pct1(d.score) + "% - " + Truncate(d.reasoning, ExampleNoteLimit)
  }

  /** An example ends with at most 120 characters of the frame's note, taken from its start. */
  lemma ExampleQuotesNoteStart(d: FrameDetail, pct1: real -> string)
    ensures var note := Truncate(d.reasoning, ExampleNoteLimit);
            HasSuffix(Example(d, pct1), note) && |note| <= ExampleNoteLimit && note <= d.reasoning
  {
  }

  function Examples(top: seq<FrameDetail>, pct1: real -> string): (es: seq<string>)
    ensures |es| == |top| && forall i :: 0 <= i < |top| ==> es[i] == Example(top[i], pct1)
  {
    seq(|top|, i requires 0 <= i < |top| => Example(top[i], pct1))
  }

  /** "Analyzed {total} frames. {high_count} frames (" */
  function FallbackHead(ds: seq<FrameDetail>): string {
    "Analyzed " + NatToString(|ds|) + " frames. " + NatToString(Aggregate.HighCount(Scores(ds))) + " frames ("
  }

  /** The share of frames above the threshold and the average, rendered, up to "Examples: ". */
  function FallbackMiddle(ds: seq<FrameDetail>, pct1: real -> string, pct2: real -> string): string {
    var total := |ds|;
    var highCount := Aggregate.HighCount(Scores(ds));
    var ratio := if total > 0 then (highCount as real) / (total as real) else 0.0;
    pct1(ratio) + "%) show strong AI indicators. "
    + "Average AI-likelihood across frames: " + pct2(Aggregate.Mean(Scores(ds))) + "%. Examples: "
  }

  /** The deterministic summary over all frames; `pct1` and `pct2` render `f"{x*100:.1f}"` and `f"{x*100:.2f}"`. */
  function VideoFallback(ds: seq<FrameDetail>, pct1: real -> string, pct2: real -> string): string {
    FallbackHead(ds) + FallbackMiddle(ds, pct1, pct2) + Join(Examples(TopFrames(ds), pct1), "; ")
  }

  /** The summary opens with the number of frames analysed and the number above the
      threshold, and closes with the examples of the best frames, at most three,
      joined by "; " and led by a best-scoring frame. */
  lemma VideoFallbackLayout(ds: seq<FrameDetail>, pct1: real -> string, pct2: real -> string)
    ensures "Analyzed " + NatToString(|ds|) + " frames. " + NatToString(Aggregate.HighCount(Scores(ds))) + " frames ("
            <= VideoFallback(ds, pct1, pct2)
    ensures HasSuffix(VideoFallback(ds, pct1, pct2), Join(Examples(TopFrames(ds), pct1), "; "))
    ensures |Examples(TopFrames(ds), pct1)| == Min(TopCount, |ds|)
    ensures ds != [] ==> Example(TopFrames(ds)[0], pct1) <= Join(Examples(TopFrames(ds), pct1), "; ")
  {
    ConcatEnds(FallbackHead(ds), FallbackMiddle(ds, pct1, pct2), Join(Examples(TopFrames(ds), pct1), "; "));
    if ds != [] {
      JoinEnds(Examples(TopFrames(ds), pct1), "; ");
    }
  }

  /** Replies built from image-detector results whose scores lie in [0,1] meet both
      hypotheses under which the video's scores lie in [0,1]. */
  lemma ImageRepliesInUnit(results: seq<ImageDetector.ImageResult>, replies: seq<ImageReply>)
    requires |replies| == |results|
    requires forall i :: 0 <= i < |results| ==> replies[i] == ReplyOf(results[i])
    requires forall i :: 0 <= i < |results| ==> InUnit(results[i].finalScore) && InUnit(results[i].gemini)
    ensures forall i :: 0 <= i < |replies| ==> InUnit(ReplyScore(replies[i]))
    ensures forall i :: 0 <= i < |replies| && ReplyGemini(replies[i]).Some? ==> InUnit(ReplyGemini(replies[i]).value)
  {
    forall i | 0 <= i < |replies| ensures InUnit(ReplyScore(replies[i])) && ReplyGemini(replies[i]) == Some(results[i].gemini) {
      assert replies[i] == ReplyOf(results[i]);
    }
  }

  /* ---------------------------------------------------------------- */
  /* The whole video                                                  */
  /* ---------------------------------------------------------------- */

  datatype VideoResult = VideoResult(
    finalScore: real,
    avg: real,
    geminiFrame: real,
    reasoning: string,
    isAi: bool,
    frameDetails: Option<seq<FrameDetail>>)

  const NoFramesMessage: string := "Could not extract frames from video."

  const NoFramesResult: VideoResult := VideoResult(0.0, 0.0, 0.0, NoFramesMessage, false, None)

  /** `detect_ai_video`: the capture and its readable frames, the image detector's
      reply for each extracted frame, and the outcome of the summary call. */
  method DetectAiVideo<F>(isOpened: bool, decoded: seq<F>, replies: seq<ImageReply>, gen: Outcome<string>,
                          pct1: real -> string, pct2: real -> string)
    returns (res: VideoResult)
    requires |replies| >= Keyframes.KeyframeCount(isOpened, |decoded|, Keyframes.FrameInterval, Keyframes.MaxFrames)
    ensures res.isAi <==> res.finalScore > 0.5
    ensures Keyframes.KeyframeCount(isOpened, |decoded|, Keyframes.FrameInterval, Keyframes.MaxFrames) == 0
            ==> res == NoFramesResult
    ensures var n := Keyframes.KeyframeCount(isOpened, |decoded|, Keyframes.FrameInterval, Keyframes.MaxFrames);
            n > 0 ==>
              && res.frameDetails.Some?
              && |res.frameDetails.value| == n
              && (forall i :: 0 <= i < n ==>
                    res.frameDetails.value[i] == DetailOf(Keyframes.FramePath(i), replies[i], i))
              && res.finalScore == res.avg == Aggregate.Mean(Scores(res.frameDetails.value))
              && res.geminiFrame == Aggregate.Mean(GeminiValues(res.frameDetails.value))
              && res.reasoning == Reasoning.Compose(gen, VideoFallback(res.frameDetails.value, pct1, pct2))
    ensures (forall i :: 0 <= i < |replies| ==> InUnit(ReplyScore(replies[i]))) ==> InUnit(res.finalScore)
    ensures (forall i :: 0 <= i < |replies| && ReplyGemini(replies[i]).Some? ==> InUnit(ReplyGemini(replies[i]).value))
            ==> InUnit(res.geminiFrame)
  {
    var frames, _ := Keyframes.ExtractKeyframes(isOpened, decoded, Keyframes.FrameInterval, Keyframes.MaxFrames);
    if frames == [] {
      return NoFramesResult;
    }
    var frameScores, frameDetails := AnalyzeFrames(frames, replies);
    var avgScore := Aggregate.Mean(frameScores);
    var geminiFrameMean := Aggregate.Mean(GeminiValues(frameDetails));
    var fallback := VideoFallback(frameDetails, pct1, pct2);
    var reasoning := Reasoning.Compose(gen, fallback);
    res := VideoResult(avgScore, avgScore, geminiFrameMean, reasoning, avgScore > Threshold, Some(frameDetails));

    if forall i :: 0 <= i < |replies| ==> InUnit(ReplyScore(replies[i])) {
      Aggregate.MeanInUnit(frameScores);
    }
    if forall i :: 0 <= i < |replies| && ReplyGemini(replies[i]).Some? ==> InUnit(ReplyGemini(replies[i]).value) {
      GeminiMeanInUnit(frameDetails);
    }
  }

  /** The verdict agrees with the per-frame count: every frame above the threshold makes
      the video AI-generated, and no frame above it makes it not. */
  lemma VerdictAgreesWithHighCount(ds: seq<FrameDetail>)
    requires ds != []
    ensures Aggregate.HighCount(Scores(ds)) == |ds| ==> IsAi(Aggregate.Mean(Scores(ds)))
    ensures Aggregate.HighCount(Scores(ds)) == 0 ==> !IsAi(Aggregate.Mean(Scores(ds)))
  {
    Aggregate.HighCountAgreesWithMean(Scores(ds));
  }

  /** Frame scores 0.2, 0.8 and 0.9 average to 1.9/3, above the threshold. */
  lemma ThreeFrameExample()
    ensures Aggregate.Mean([0.2, 0.8, 0.9]) == 1.9 / 3.0
    ensures IsAi(Aggregate.Mean([0.2, 0.8, 0.9]))
  {
    assert Aggregate.Sum([0.2, 0.8, 0.9]) == 0.2 + Aggregate.Sum([0.8, 0.9]) by {
      assert [0.2, 0.8, 0.9][1..] == [0.8, 0.9];
    }
    assert Aggregate.Sum([0.8, 0.9]) == 0.8 + Aggregate.Sum([0.9]) by {
      assert [0.8, 0.9][1..] == [0.9];
    }
    assert Aggregate.Sum([0.9]) == 0.9 + Aggregate.Sum([]) by {
      assert [0.9][1..] == [];
    }
  }
}
