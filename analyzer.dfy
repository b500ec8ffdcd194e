/** The text heuristic. The readability score and the sentence and word
    counts come from the `textstat` library and are inputs here; the count
    of distinct tokens is taken over Python's own `text.split()`, which
    tokenises differently from `textstat`'s word count. */
module Analyzer {
  import opened Common

  datatype Features = Features(
    readability: real,
    sentenceCount: nat,
    wordCount: nat,
    avgSentenceLength: real,
    lexicalDiversity: real)

  /** `max(1, n)` as a real divisor. */
  function AtLeastOne(n: nat): (r: real)
    ensures r >= 1.0
  {
    if n < 1 then 1.0 else n as real
  }

  function Distinct(ws: seq<string>): set<string> {
    set w | w in ws
  }

  lemma {:induction false} DistinctAtMostLength(ws: seq<string>)
    ensures |Distinct(ws)| <= |ws|
  {
    if ws != [] {
      DistinctAtMostLength(ws[1..]);
      assert Distinct(ws) == {ws[0]} + Distinct(ws[1..]);
    }
  }

  function AnalyzeTextFeatures(text: string, readability: real, sentenceCount: nat, wordCount: nat): (f: Features)
    ensures f.readability == readability && f.sentenceCount == sentenceCount && f.wordCount == wordCount
    // the average never divides by zero: with no sentence it is the word count
    ensures f.avgSentenceLength * AtLeastOne(sentenceCount) == wordCount as real
    ensures sentenceCount == 0 ==> f.avgSentenceLength == wordCount as real
    ensures f.avgSentenceLength >= 0.0
    ensures f.lexicalDiversity * AtLeastOne(wordCount) == |Distinct(Words(text))| as real
    ensures f.lexicalDiversity >= 0.0
    ensures NonSpace(text) == [] ==> f.lexicalDiversity == 0.0
  {
    WordsPartitionNonSpace(text);
    Features(
      readability, sentenceCount, wordCount,
      wordCount as real / AtLeastOne(sentenceCount),
      |Distinct(Words(text))| as real / AtLeastOne(wordCount))
  }

  /** The diversity is at most the number of `split()` tokens per counted word. */
  lemma LexicalDiversityBound(text: string, readability: real, sentenceCount: nat, wordCount: nat)
    ensures AnalyzeTextFeatures(text, readability, sentenceCount, wordCount).lexicalDiversity * AtLeastOne(wordCount)
            <= |Words(text)| as real
  {
    DistinctAtMostLength(Words(text));
  }

  /** `"yes - no".split()` keeps the dash as a token of its own. */
  lemma SplitKeepsDash()
    ensures Words("yes - no") == ["yes", "-", "no"]
  {
    var rest := "- no";
    assert "yes - no" == "yes" + [' '] + rest;
    assert rest == "-" + [' '] + "no";
    WordsAtSpace("yes", ' ', rest);
    WordsAtSpace("-", ' ', "no");
    WordsOfWord("yes");
    WordsOfWord("-");
    WordsOfWord("no");
  }

  /** Because the two counts come from different tokenisers, the diversity can exceed 1:
      `split()` keeps a standalone dash as a token while a word count that skips
      punctuation counts two words in "yes - no". */
  lemma LexicalDiversityCanExceedOne()
    ensures AnalyzeTextFeatures("yes - no", 0.0, 1, 2).lexicalDiversity == 1.5
  {
    SplitKeepsDash();
    var ws: seq<string> := ["yes", "-", "no"];
    assert Distinct(ws) == {"yes", "-", "no"};
    assert "yes" != "-" && "yes" != "no" && "-" != "no";
    assert |{"yes", "-", "no"}| == 3;
  }

  function ReadScore(f: Features): real {
    1.0 - f.readability / 100.0
  }

  function DiversityPenalty(f: Features): real {
    1.0 - f.lexicalDiversity
  }

  function LengthFactor(f: Features): (r: real)
    ensures r <= 1.0
    ensures f.avgSentenceLength >= 0.0 ==> r >= 0.0
    ensures f.avgSentenceLength <= 25.0 ==> r * 25.0 == f.avgSentenceLength
  {
    var x := f.avgSentenceLength / 25.0;
    if x <= 1.0 then x else 1.0
  }

  /** The mean of the three indicators before clipping. */
  function RawHeuristic(f: Features): real {
    (ReadScore(f) + DiversityPenalty(f) + LengthFactor(f)) / 3.0
  }

  /** `heuristic_score`: the mean of the three indicators, clipped to [0,1]. */
  function HeuristicScore(f: Features): (r: real)
    ensures InUnit(r)
    ensures InUnit(RawHeuristic(f)) ==> r == RawHeuristic(f)
  {
    Clamp01(RawHeuristic(f))
  }

  /** More readable or more diverse text never scores higher. */
  lemma HeuristicAntitone(f: Features, g: Features)
    requires g.avgSentenceLength == f.avgSentenceLength
    requires g.readability >= f.readability && g.lexicalDiversity >= f.lexicalDiversity
    ensures HeuristicScore(g) <= HeuristicScore(f)
  {
  }
}
