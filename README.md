# AI media detector: decision layer

The program estimates whether a text, an image or a video is AI-generated. This project models it as a Dafny program and proves properties about it. It covers the part that decides; the model inferences, the judge model and file I/O stay outside. What it models:

- **The judge client.** `detect_gemini_ai` and `detect_gemini_image` share this. It makes at most three attempts. A parsed number is clamped into [0,1]. An error whose message mentions `503` or `UNAVAILABLE` is followed by a random wait in [2,5] and a retry. Any other error gives the neutral 0.5 at once.
- **Text detection.** The text heuristic (`analyze_text_features`, `heuristic_score`) is blended with the classifier and judge scores using weights 0.6 / 0.25 / 0.15.
- **Image detection.** The CLIP likelihood is `(p1 + p2) / 2` over four prompts, and it is blended with the judge score using weights 0.3 / 0.7.
- **Video detection:**
  - stride sampling of keyframes;
  - the loop over frames;
  - the mean and the count above the threshold;
  - the stable top three frames;
  - the 120-character notes;
  - the judge mean over the frames that have one;
  - the empty-video result;
  - the token scan of `gemini_reason_about_frame`.
- **The explanation.** Each detector builds one the same way: the judge's prose, then `"\n\nComponent summary: "`, then a deterministic summary. Without prose, the summary alone is used.
- **The threshold.** Every verdict is the strict test `score > 0.5`.

External calls become inputs:

- Judge responses are a sequence of outcomes, one per attempt.
- The random waits are a sequence of draws.
- The explanation call is one `Outcome<string>`.
- Python's `float()` is an abstract partial function.
- The image detector's per-frame reply is an `ImageReply`.
- The video decoder is modelled as whether the capture opened, plus the frames it reads.
- The `%.1f` / `%.2f` renderings of `x*100` are caller-supplied functions `pct1` / `pct2`.

Modules:

| file | module | source |
|---|---|---|
| `common.dfy` | `Common` | shared vocabulary: clamping, substrings, `str.split()`, decimal rendering |
| `reasoning.dfy` | `Reasoning` | the explanation built by all three detectors |
| `judge.dfy` | `Judge` | the retry loop of `detect_gemini_ai` / `detect_gemini_image` |
| `analyzer.dfy` | `Analyzer` | `EthicsProj/analyzer.py` |
| `text_detector.dfy` | `TextDetector` | `EthicsProj/text_detector.py` |
| `image_detector.dfy` | `ImageDetector` | `EthicsProj/image_detector.py` |
| `aggregate.dfy` | `Aggregate` | the means and counts of `detect_ai_video` |
| `keyframes.dfy` | `Keyframes` | `extract_keyframes` |
| `ranking.dfy` | `FrameRanking` | the sorted top-three frames |
| `video_detector.dfy` | `VideoDetector` | `EthicsProj/video_detector.py` |

Behaviour of the code worth knowing:

- **Out-of-range judge numbers.** They are clamped into [0,1], not rejected.
- **Parsing the judge's score.** `detect_gemini_*` parse the whole stripped reply, not its first number.
- **Unparseable replies.** Such a reply raises an error whose message quotes the reply. That error is retried when the quoted text contains `503` or `UNAVAILABLE`.
- **Waits.** A wait follows every transient failure, including the third one.
- **Cleanup.** The temporary frame files are not removed when an exception escapes, so cleanup is not guaranteed.

## Model

| member | source | states |
|---|---|---|
| Common.Clamp01 | EthicsProj/text_detector.py:27 | `max(0.0, min(x, 1.0))` is in [0,1], is the identity on [0,1], and is 0 below and 1 above |
| Common.ContainsIffOccurs | EthicsProj/text_detector.py:31 | the substring test `"503" in err_msg` holds exactly when the marker occurs at some position of the message |
| Common.OccursWhenContains | EthicsProj/text_detector.py:31 | a successful substring test has found an occurrence |
| Common.ContainsWhenOccurs | EthicsProj/text_detector.py:31 | every occurrence of the marker makes the substring test succeed |
| Common.Truncate | EthicsProj/video_detector.py:124 | `short[:120]` is a prefix of the note, at most 120 long, and the whole note when the note is shorter |
| Common.NatToString | EthicsProj/video_detector.py:21 | the rendering of a frame number is non-empty and all decimal digits |
| Common.ParseNatToString | EthicsProj/video_detector.py:21 | the decimal rendering reads back to the same number |
| Common.NatToStringInjective | EthicsProj/video_detector.py:21 | distinct numbers render differently |
| Common.SplitFromWords | EthicsProj/analyzer.py:10 | every `split()` token is a non-empty word free of whitespace, and the tokens concatenate to the text's non-whitespace characters |
| Common.WordsPartitionNonSpace | EthicsProj/analyzer.py:10 | `text.split()` partitions the non-whitespace characters into words and is empty exactly for blank text |
| Common.WordsOfWord | EthicsProj/analyzer.py:10 | a non-empty run of non-space characters is one token: `split()` never cuts inside a run |
| Common.WordsAtSpace | EthicsProj/analyzer.py:10 | `split()` cuts at every whitespace character: the tokens of `a + c + b` are those of `a` followed by those of `b` |
| Common.WordsOfJoinedWords | EthicsProj/analyzer.py:10 | splitting words joined by single spaces gives the words back |
| Common.JoinEnds | EthicsProj/video_detector.py:128 | `"; ".join(parts)` starts with the first part and ends with the last |
| Common.JoinAt | EthicsProj/video_detector.py:128 | the separator stands between each part and the next: the join is the join of the parts up to `i`, the separator, and the join of the rest |
| Reasoning.Compose | EthicsProj/text_detector.py:75-92 | the summary is always a suffix of the explanation; with prose, the explanation starts with it; with a failed call or empty prose it is exactly the summary |
| Reasoning.ComposeAddsProseIffGenerated | EthicsProj/video_detector.py:132-153 | the explanation is longer than the summary exactly when non-empty prose was produced; then it is prose, separator and summary at known positions |
| Judge.Settle | EthicsProj/text_detector.py:25-38 | an attempt that ends the loop yields a score in [0,1] |
| Judge.ScoreFrom | EthicsProj/text_detector.py:16-40 | the score reached from any attempt onwards is in [0,1] |
| Judge.QueryWithRetry | EthicsProj/text_detector.py:14-40 | the loop meets the full run characterisation: 1 to 3 attempts; every attempt but the last transient; the last settles the score, or is the third transient failure with result 0.5; one wait per transient failure, in [2,5]. It also returns the clamped judge score |
| Judge.ConsultedIsDeterministic | EthicsProj/text_detector.py:16-40 | the responses and draws determine the score, the number of attempts and the waits |
| Judge.PermanentErrorStopsAtOnce | EthicsProj/text_detector.py:28-38 | a first error without a marker gives 0.5 after one attempt and no wait |
| Judge.SuccessAfterTwoTransientFailures | EthicsProj/text_detector.py:16-36 | two transient failures then a success give three attempts, two waits in [2,5] and the clamped value |
| Judge.AllTransientGivesNeutral | EthicsProj/text_detector.py:31-40 | three transient failures give three attempts, a wait after each (the last one too) and 0.5 |
| Analyzer.AtLeastOne | EthicsProj/analyzer.py:9 | `max(1, n)` is a divisor of at least one |
| Analyzer.DistinctAtMostLength | EthicsProj/analyzer.py:10 | there are no more distinct tokens than tokens |
| Analyzer.AnalyzeTextFeatures | EthicsProj/analyzer.py:5-17 | never divides by zero. The average sentence length times `max(1, sentences)` is the word count, so it equals the word count when there is no sentence. The diversity times `max(1, words)` is the number of distinct `split()` tokens. Both ratios are non-negative, and the diversity is 0 for blank text |
| Analyzer.LexicalDiversityBound | EthicsProj/analyzer.py:10 | the diversity times `max(1, words)` is at most the number of `split()` tokens |
| Analyzer.SplitKeepsDash | EthicsProj/analyzer.py:10 | `"yes - no".split()` is `["yes", "-", "no"]`: a standalone dash is a token |
| Analyzer.LexicalDiversityCanExceedOne | EthicsProj/analyzer.py:10 | the two tokenisers disagree: "yes - no" with a punctuation-free word count of 2 has diversity 1.5 |
| Analyzer.LengthFactor | EthicsProj/analyzer.py:22 | `min(avg/25, 1)` is at most 1, non-negative for a non-negative average, and exactly avg/25 up to 25 |
| Analyzer.HeuristicScore | EthicsProj/analyzer.py:19-23 | the score is in [0,1] for any features, and equals the unclipped mean of the three indicators when that mean is in [0,1] |
| Analyzer.HeuristicAntitone | EthicsProj/analyzer.py:20-23 | higher readability or higher diversity never raises the score |
| TextDetector.FuseText | EthicsProj/text_detector.py:53 | the 0.6/0.25/0.15 blend lies between the smallest and the largest signal, so it is in [0,1] when all signals are |
| TextDetector.FuseTextExample | EthicsProj/text_detector.py:53-61 | classifier 0.9, judge 0.1 and heuristic 0 blend to 0.565, which is called AI-generated |
| TextDetector.ThresholdIsStrict | EthicsProj/text_detector.py:61 | a blend of exactly 0.5 is not called AI-generated |
| TextDetector.TextFallbackVerdict | EthicsProj/text_detector.py:68-72 | the summary ends with "likely AI-generated." exactly when the verdict is AI, and with "appears human-written." exactly when it is not |
| TextDetector.DetectGeminiAi | EthicsProj/text_detector.py:14-40 | the text judge call is the shared retry loop: full run characterisation, score in [0,1], at most 3 attempts |
| TextDetector.DetectAiText | EthicsProj/text_detector.py:42-102 | the result carries the classifier probability, the clipped heuristic of the text's features and the judge score. Its final score is their blend, in [0,1]; the verdict is `final > 0.5`; the explanation is composed over the four-line summary |
| ImageDetector.ClipLikelihood | EthicsProj/image_detector.py:65-67 | for a distribution over the four prompts, `(p1+p2)/2` is in [0, 0.5], and is 0.5 exactly when the two real-photo prompts get no mass |
| ImageDetector.FuseImage | EthicsProj/image_detector.py:71 | the 0.3/0.7 blend lies between its two signals, is in [0,1] when they are, and is at most 0.85 when the CLIP likelihood is at most 0.5 |
| ImageDetector.ImageFallbackVerdict | EthicsProj/image_detector.py:85-89 | the summary ends with "likely AI-generated." exactly when the final score is above 0.5, and with "likely real." otherwise |
| ImageDetector.DetectGeminiImage | EthicsProj/image_detector.py:17-47 | the image judge call is the shared retry loop: full run characterisation, score in [0,1], at most 3 attempts |
| ImageDetector.DetectAiImage | EthicsProj/image_detector.py:49-115 | `clip` and `gemini` are exactly the values blended. The final score is in [0,1] and at most 0.85; the verdict is `final > 0.5`; the explanation is composed over the three-line summary |
| Aggregate.MeanBounds | EthicsProj/video_detector.py:104 | the mean of a non-empty sequence lies within any bounds of its elements |
| Aggregate.MeanInUnit | EthicsProj/video_detector.py:104 | scores in [0,1] have a mean in [0,1]; the empty mean 0.0 is too |
| Aggregate.HighCount | EthicsProj/video_detector.py:118-119 | the count above 0.5 is at most the total; it is 0 exactly when no score is above 0.5, and the total exactly when all are |
| Aggregate.HighCountAgreesWithMean | EthicsProj/video_detector.py:104-118 | if every frame is above the threshold, so is the mean; if none is, the mean is not |
| Keyframes.FramePathInjective | EthicsProj/video_detector.py:21 | distinct frame numbers give distinct `temp_frame_{k}.jpg` names |
| Keyframes.ExtractKeyframes | EthicsProj/video_detector.py:12-27 | the number of saved frames is min(max_frames, ceil(n / frame_interval)) for an opened capture with n readable frames, and 0 otherwise. The k-th path is `temp_frame_{k}.jpg`, so the paths are distinct. The k-th saved frame is read frame k·frame_interval |
| Keyframes.DefaultExtractionBound | EthicsProj/video_detector.py:12-16 | with the defaults at most 15 frames are kept. None are kept from an empty video, and one is kept from an opened video of 1 to 30 frames |
| FrameRanking.Insert | EthicsProj/video_detector.py:120 | inserting keeps every detail: the result is the input plus the new one, as a multiset |
| FrameRanking.SortByScore | EthicsProj/video_detector.py:120 | the sort is a permutation of the details |
| FrameRanking.SortRanked | EthicsProj/video_detector.py:120 | sorting details in extraction order ranks them: scores do not increase, and equal scores keep extraction order |
| FrameRanking.RankedIsUnique | EthicsProj/video_detector.py:120 | two ranked arrangements of the same details are equal |
| FrameRanking.SortByScoreIsTheRankedPermutation | EthicsProj/video_detector.py:120 | any ranked permutation, the one a stable descending sort produces included, is the model's sort |
| FrameRanking.TopFrames | EthicsProj/video_detector.py:120 | the top list has min(3, total) entries |
| FrameRanking.TopFramesAreTheBest | EthicsProj/video_detector.py:120 | the top list has min(3, total) entries, is ranked, holds only the video's details, and no left-out frame scores higher than a kept one |
| VideoDetector.ScanScore | EthicsProj/video_detector.py:50-58 | the score read off the judge's text is always in [0,1] |
| VideoDetector.ScanPicksFirstQualifying | EthicsProj/video_detector.py:51-56 | the score is the value of the first token that parses to a number in [0,1]; earlier tokens that fail to parse or are out of range are skipped |
| VideoDetector.ScanDefaultsToNeutral | EthicsProj/video_detector.py:50-58 | with no qualifying token the score is 0.5 |
| VideoDetector.GeminiReasonAboutFrame | EthicsProj/video_detector.py:30-63 | an exception gives 0.5 and the fixed unavailability message. Otherwise the text is the reply, and the score is the scan of its `split()` tokens; it is always in [0,1] |
| VideoDetector.ReplyOf | EthicsProj/image_detector.py:107-113 | a record returned by the image detector contributes its final score, its explanation and its judge score to the frame |
| VideoDetector.AnalyzeFrames | EthicsProj/video_detector.py:84-102 | one detail per frame, in extraction order with `index == i`. A record contributes its keys with defaults 0.0, '' and None; a bare value contributes itself, or 0.0, with no note and no judge score. The score list has one entry per frame, and entry `i` is detail `i`'s score |
| VideoDetector.GeminiValues | EthicsProj/video_detector.py:114 | no more judge values than frames |
| VideoDetector.GeminiValuesInFrameOrder | EthicsProj/video_detector.py:114 | the averaged judge scores are those of the frames that have one, each once and in frame order: the `j`-th value is the judge score of the `j`-th such frame, and every such frame is listed |
| VideoDetector.GeminiValuesArePresentScores | EthicsProj/video_detector.py:114 | a value is averaged exactly when some frame has it as its judge score; there are none exactly when no frame has a judge score |
| VideoDetector.GeminiMeanInUnit | EthicsProj/video_detector.py:114-115 | judge scores in [0,1] give a judge mean in [0,1], and 0.0 when there are none |
| VideoDetector.ExampleQuotesNoteStart | EthicsProj/video_detector.py:123-124 | each example ends with the first at most 120 characters of the frame's note |
| VideoDetector.VideoFallbackLayout | EthicsProj/video_detector.py:118-129 | the frame summary starts with "Analyzed {total} frames. {high_count} frames (" and ends with the examples of the min(3, total) best frames joined by "; ", led by a best-scoring frame |
| VideoDetector.ImageRepliesInUnit | EthicsProj/video_detector.py:86-94 | records built from image-detector results whose scores are in [0,1] meet both hypotheses under which the video's scores are in [0,1] |
| VideoDetector.DetectAiVideo | EthicsProj/video_detector.py:66-162 | with no frame extracted, the result is all zeros, the fixed message and not AI. Otherwise the details are the per-frame analysis of `temp_frame_{i}.jpg`; final score = avg = the mean of the frame scores; the judge component is the mean of the present judge scores; the explanation is composed over the frame summary. The verdict is always `final > 0.5`, and the scores stay in [0,1] when the replies do |
| VideoDetector.VerdictAgreesWithHighCount | EthicsProj/video_detector.py:104-118 | every frame above the threshold makes the video AI, and none makes it not AI |
| VideoDetector.ThreeFrameExample | EthicsProj/video_detector.py:104-108 | frame scores 0.2, 0.8 and 0.9 average to 1.9/3, which is called AI-generated |

## Left out

- **Model inference.** RoBERTa tokenisation and softmax, CLIP preprocessing and logits, and `textstat` (readability, sentence and word counts) are foreign code. Their outputs are parameters. The classifier probability is required to be in [0,1], and the CLIP output to be a distribution over the four prompts.
- **Judge API calls.** The `generate_content` calls, image loading through PIL and `requests`, and Python's `float()` grammar are not modelled. They appear as oracle outcomes and as an abstract parse function. The prompt texts are not modelled.
- **Waiting.** `time.sleep` and `random.uniform` are not modelled. Each wait is the attempt's draw, recorded in the returned list of waits.
- **Video I/O.** `cv2.VideoCapture` and `imwrite` are not modelled. The capture's `isOpened()` is taken as constant during the loop. The decoder is the sequence of frames it reads before the first failed read.
- **Frame cleanup.** The removal of the temporary frame files is not modelled. That code is not in a `finally`, so an exception from the image detector leaves the files behind.
- **Image detector exceptions.** An exception raised by the image detector inside the video loop (for example, an unreadable frame) propagates out of the video detector. This is not modelled: each frame has a reply.
- **`None` values in image replies.** A record reply whose `final_score` is present but `None` is not modelled. Neither is a `reasoning` key present with value `None`: the model stores `''` where the code stores `None` and later reads it as `''`.
- Keyframes.ExtractKeyframes: requires a positive `frame_interval`. A zero interval raises in the code, and a negative one is not modelled.
- **Number formatting.** The `%.1f` / `%.2f` renderings inside explanations are caller-supplied functions. Only the structure of the strings is modelled. Console output is left out.
- **Floating point.** IEEE rounding is not modelled; every score is a `real`.
- VideoDetector.GeminiReasonAboutFrame: is modelled on its own. The video detector never calls it.
- **Other modules.** The Flask routes in `app.py`, the command-line menu in `main.py` and the page fetcher in `scraper.py` are not part of this model.
