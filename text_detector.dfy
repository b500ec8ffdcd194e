/** Text detection: a local classifier's probability (RoBERTa, an input
    here), the judge model's score and the text heuristic are blended with
    fixed weights 0.6 / 0.25 / 0.15; the text is called AI-generated when the
    blend is strictly above 0.5; the explanation is the judge's prose (if
    any) followed by a four-line component summary. */
module TextDetector {
  import opened Common
  import Judge
  import Analyzer
  import Reasoning

  const RobertaWeight: real := 0.6
  const GeminiWeight: real := 0.25
  const HeuristicWeight: real := 0.15

  function Max3(a: real, b: real, c: real): real {
    if a >= b && a >= c then a else if b >= c then b else c
  }

  function Min3(a: real, b: real, c: real): real {
    if a <= b && a <= c then a else if b <= c then b else c
  }

  /** The weighted blend: the weights sum to one, so it lies between the smallest and the largest signal. */
  function FuseText(roberta: real, gemini: real, heuristic: real): (r: real)
    ensures Min3(roberta, gemini, heuristic) <= r <= Max3(roberta, gemini, heuristic)
    ensures InUnit(roberta) && InUnit(gemini) && InUnit(heuristic) ==> InUnit(r)
  {
    roberta * RobertaWeight + gemini * GeminiWeight + heuristic * HeuristicWeight
  }

  /** classifier 0.9, judge 0.1, heuristic 0.0 blend to 0.565, which is above the threshold. */
  lemma FuseTextExample()
    ensures FuseText(0.9, 0.1, 0.0) == 0.565 && IsAi(FuseText(0.9, 0.1, 0.0))
  {
  }

  /** A blend of exactly 0.5 is not called AI-generated. */
  lemma ThresholdIsStrict()
    ensures FuseText(0.5, 0.5, 0.5) == 0.5 && !IsAi(0.5)
  {
  }

  const AiLabel: string := "likely AI-generated"
  const HumanLabel: string := "appears human-written"

  function Verdict(isAi: bool): string {
    if isAi then AiLabel else HumanLabel
  }

  /** The deterministic component summary; `pct2` renders a score as `f"{x*100:.2f}"`. */
  function TextFallback(roberta: real, gemini: real, heuristic: real, final: real, isAi: bool,
                        pct2: real -> string): string
  {
    "RoBERTa model: " + pct2(roberta) + "% (weight 60%).\n"
    + "Gemini model: " + pct2(gemini) + "% (weight 25%).\n"
    + "Heuristic signals: " + pct2(heuristic) + "% (weight 15%).\n"
    + "Combined final score: " + pct2(final) + "% \U{2014} " + Verdict(isAi) + "."
  }

  /** The summary ends with the AI label exactly when the text is called AI-generated. */
  lemma TextFallbackVerdict(roberta: real, gemini: real, heuristic: real, final: real, isAi: bool,
                            pct2: real -> string)
    ensures HasSuffix(TextFallback(roberta, gemini, heuristic, final, isAi, pct2), AiLabel + ".") <==> isAi
    ensures HasSuffix(TextFallback(roberta, gemini, heuristic, final, isAi, pct2), HumanLabel + ".") <==> !isAi
  {
    var fb := TextFallback(roberta, gemini, heuristic, final, isAi, pct2);
    var tail := Verdict(isAi) + ".";
    assert HasSuffix(fb, tail);
    if isAi {
      assert fb[|fb| - 2] == 'd';
    } else {
      assert fb[|fb| - 2] == 'n';
    }
  }

  datatype TextResult = TextResult(
    finalScore: real,
    roberta: real,
    gemini: real,
    heuristic: real,
    reasoning: string,
    isAi: bool)

  /** `detect_gemini_ai`: the shared retry loop applied to the text prompt. */
  method DetectGeminiAi(responses: seq<Outcome<real>>, draws: seq<real>)
    returns (score: real, attempts: nat, waits: seq<real>)
    requires Judge.WellFormedOracle(responses, draws)
    ensures Judge.Consulted(responses, draws, score, attempts, waits)
    ensures score == Judge.JudgeScore(responses)
    ensures InUnit(score) && 1 <= attempts <= Judge.MaxAttempts
  {
    score, attempts, waits := Judge.QueryWithRetry(responses, draws);
  }

  /** `detect_ai_text`, with the classifier's probability and textstat's readability
      and counts as inputs, `responses`/`draws` for the scoring call and `gen` for
      the explanation call. */
  method DetectAiText(text: string, roberta: real, readability: real, sentenceCount: nat, wordCount: nat,
                      responses: seq<Outcome<real>>, draws: seq<real>, gen: Outcome<string>,
                      pct2: real -> string)
    returns (res: TextResult)
    requires InUnit(roberta)
    requires Judge.WellFormedOracle(responses, draws)
    ensures res.roberta == roberta
    ensures res.heuristic == Analyzer.HeuristicScore(Analyzer.AnalyzeTextFeatures(text, readability, sentenceCount, wordCount))
    ensures res.gemini == Judge.JudgeScore(responses)
    ensures res.finalScore == FuseText(res.roberta, res.gemini, res.heuristic)
    ensures InUnit(res.finalScore)
    ensures res.isAi <==> res.finalScore > 0.5
    ensures res.reasoning
            == Reasoning.Compose(gen, TextFallback(res.roberta, res.gemini, res.heuristic, res.finalScore, res.isAi, pct2))
  {
    var features := Analyzer.AnalyzeTextFeatures(text, readability, sentenceCount, wordCount);
    var heuristic := Analyzer.HeuristicScore(features);
    var geminiProb, _, _ := DetectGeminiAi(responses, draws);
    var finalScore := FuseText(roberta, geminiProb, heuristic);
    var isAi := finalScore > Threshold;
    var fallback := TextFallback(roberta, geminiProb, heuristic, finalScore, isAi, pct2);
    var reasoning := Reasoning.Compose(gen, fallback);
    res := TextResult(finalScore, roberta, geminiProb, heuristic, reasoning, isAi);
  }
}
