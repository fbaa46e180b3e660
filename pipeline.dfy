/**
 * `get_grouped_segments` (aligner.py:301-337): pause/speaker grouping, then the split of
 * over-long segments, then the sentence merge, and optionally the punctuation merge.
 */
module Pipeline {
  import opened Words
  import opened Sentences
  import opened Grouping
  import opened Splitting
  import opened Merging
  import opened PunctMerge
  import opened Language

  /** The segments the four stages make. */
  function GroupedSegments(tools: SentenceTools, words: seq<Word>, maxDuration: real, bigPauseSeconds: real,
                           minWordsInSegment: int, skipPunctuationOnly: bool): seq<Segment>
  {
    var initial := GroupWords(words, bigPauseSeconds, minWordsInSegment);
    GroupWordsConserves(words, bigPauseSeconds, minWordsInSegment);
    var split := SplitLong(tools, initial, maxDuration);
    var merged := Merge(tools, split);
    if skipPunctuationOnly then Absorb(merged) else merged
  }

  /**
   * The composition as the source performs it. The language code is normalized and then
   * handed to stages that do not use it.
   */
  method GetGroupedSegments(tools: SentenceTools, words: seq<Word>, languageCode: string, maxDuration: real,
                            bigPauseSeconds: real, minWordsInSegment: int, skipPunctuationOnly: bool)
    returns (finalSegments: seq<Segment>)
    ensures finalSegments == GroupedSegments(tools, words, maxDuration, bigPauseSeconds, minWordsInSegment, skipPunctuationOnly)
  {
    var langCode := NormalizeLanguageCode(languageCode);
    var initialSegments := InitialGrouping(words, bigPauseSeconds, minWordsInSegment);
    GroupWordsConserves(words, bigPauseSeconds, minWordsInSegment);
    var splitSegments := SplitLongSegmentsOnSentence(tools, initialSegments, maxDuration);
    finalSegments := MergeOnSentenceBoundary(tools, splitSegments);
    if skipPunctuationOnly {
      finalSegments := MergePunctuationOnlySegments(finalSegments);
    }
  }

  /**
   * Whatever the tokenizer and the parameters, the pipeline keeps every word, in order,
   * and every segment it returns has a first and a last word; it returns no segment
   * exactly when it is given no word.
   */
  lemma GroupedSegmentsConserve(tools: SentenceTools, words: seq<Word>, maxDuration: real, bigPauseSeconds: real,
                                minWordsInSegment: int, skipPunctuationOnly: bool)
    ensures var r := GroupedSegments(tools, words, maxDuration, bigPauseSeconds, minWordsInSegment, skipPunctuationOnly);
            Flatten(r) == words && AllNonEmpty(r) && (r == [] <==> words == [])
  {
    var initial := GroupWords(words, bigPauseSeconds, minWordsInSegment);
    GroupWordsConserves(words, bigPauseSeconds, minWordsInSegment);
    var split := SplitLong(tools, initial, maxDuration);
    SplitLongConserves(tools, initial, maxDuration);
    var merged := Merge(tools, split);
    MergeSpec(tools, split);
    var r := if skipPunctuationOnly then Absorb(merged) else merged;
    if skipPunctuationOnly {
      AbsorbConserves(merged);
      AbsorbShape(merged);
    }
    assert Flatten(r) == words;
    if r != [] {
      assert r[0] != [];
      FlattenNonEmpty(r, 0);
    }
  }
}
