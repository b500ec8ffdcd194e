/** Image detection: the CLIP classifier's softmax over four reference
    prompts (an input here) gives an AI likelihood, the mean of the mass on
    the two AI-framed prompts; it is blended 0.3 / 0.7 with the judge
    model's score; the image is called AI-generated when the blend is
    strictly above 0.5; the explanation is the judge's prose (if any)
    followed by a three-line component summary. */
module ImageDetector {
  import opened Common
  import Judge
  import Reasoning

  /** The prompts in the order CLIP scores them; the AI-framed ones are at 1 and 2. */
  const Prompts: seq<string> := [
    "a real photograph of a person",
    "an AI-generated image of a person",
    "a computer-generated landscape",
    "a real photo taken by a camera"]

  const ClipWeight: real := 0.3
  const GeminiWeight: real := 0.7

  /** A softmax output over the four prompts. */
  predicate IsPromptDistribution(probs: seq<real>) {
    |probs| == |Prompts|
    && (forall i :: 0 <= i < |probs| ==> 0.0 <= probs[i])
    && probs[0] + probs[1] + probs[2] + probs[3] == 1.0
  }

  /** The mean probability of the two AI-framed prompts; at most half of the mass. */
  function ClipLikelihood(probs: seq<real>): (r: real)
    requires |probs| == |Prompts|
    ensures IsPromptDistribution(probs) ==> 0.0 <= r <= 0.5
    ensures IsPromptDistribution(probs) ==> (r == 0.5 <==> probs[0] == 0.0 && probs[3] == 0.0)
  {
    (probs[1] + probs[2]) / 2.0
  }

  /** The 0.3 / 0.7 blend: it lies between its two signals, and with the CLIP
      likelihood at most 0.5 it never exceeds 0.85. */
  function FuseImage(clip: real, gemini: real): (r: real)
    ensures (if clip <= gemini then clip else gemini) <= r <= (if clip <= gemini then gemini else clip)
    ensures InUnit(clip) && InUnit(gemini) ==> InUnit(r)
    ensures clip <= 0.5 && gemini <= 1.0 ==> r <= 0.85
  {
    clip * ClipWeight + gemini * GeminiWeight
  }

  const AiLabel: string := "likely AI-generated"
  const RealLabel: string := "likely real"

  /** The deterministic component summary; `pct2` renders a score as `f"{x*100:.2f}"`. */
  function ImageFallback(clip: real, gemini: real, final: real, pct2: real -> string): string {
    "CLIP-derived AI likelihood: " + pct2(clip) + "% (weight 30%).\n"
    + "Gemini model: " + pct2(gemini) + "% (weight 70%).\n"
    + "Combined final score: " + pct2(final) + "% \U{2014} " + (if final > Threshold then AiLabel else RealLabel) + "."
  }

  /** The summary ends with the AI label exactly when the final score is above 0.5. */
  lemma ImageFallbackVerdict(clip: real, gemini: real, final: real, pct2: real -> string)
    ensures HasSuffix(ImageFallback(clip, gemini, final, pct2), AiLabel + ".") <==> IsAi(final)
    ensures HasSuffix(ImageFallback(clip, gemini, final, pct2), RealLabel + ".") <==> !IsAi(final)
  {
    var fb := ImageFallback(clip, gemini, final, pct2);
    var tail := (if final > Threshold then AiLabel else RealLabel) + ".";
    assert HasSuffix(fb, tail);
    if IsAi(final) {
      assert fb[|fb| - 2] == 'd';
    } else {
      assert fb[|fb| - 2] == 'l';
    }
  }

  datatype ImageResult = ImageResult(
    finalScore: real,
    clip: real,
    gemini: real,
    reasoning: string,
    isAi: bool)

  /** `detect_gemini_image`: the shared retry loop applied to the image prompt;
      a failure to open or fetch the image is an `Err` of its attempt. */
  method DetectGeminiImage(responses: seq<Outcome<real>>, draws: seq<real>)
    returns (score: real, attempts: nat, waits: seq<real>)
    requires Judge.WellFormedOracle(responses, draws)
    ensures Judge.Consulted(responses, draws, score, attempts, waits)
    ensures score == Judge.JudgeScore(responses)
    ensures InUnit(score) && 1 <= attempts <= Judge.MaxAttempts
  {
    score, attempts, waits := Judge.QueryWithRetry(responses, draws);
  }

  /** `detect_ai_image`, with CLIP's softmax as input, `responses`/`draws` for the
      scoring call and `gen` for the explanation call. */
  method DetectAiImage(probs: seq<real>, responses: seq<Outcome<real>>, draws: seq<real>,
                       gen: Outcome<string>, pct2: real -> string)
    returns (res: ImageResult)
    requires IsPromptDistribution(probs)
    requires Judge.WellFormedOracle(responses, draws)
    ensures res.clip == ClipLikelihood(probs)
    ensures res.gemini == Judge.JudgeScore(responses)
    ensures res.finalScore == FuseImage(res.clip, res.gemini)
    ensures InUnit(res.finalScore) && res.finalScore <= 0.85
    ensures res.isAi <==> res.finalScore > 0.5
    ensures res.reasoning == Reasoning.Compose(gen, ImageFallback(res.clip, res.gemini, res.finalScore, pct2))
  {
    var clip := ClipLikelihood(probs);
    var geminiScore, _, _ := DetectGeminiImage(responses, draws);
    var finalScore := FuseImage(clip, geminiScore);
    var fallback := ImageFallback(clip, geminiScore, finalScore, pct2);
    var reasoning := Reasoning.Compose(gen, fallback);
    res := ImageResult(finalScore, clip, geminiScore, reasoning, finalScore > Threshold);
  }
}
