/** The groupings the aligner's tests expect (test_aligner.py), derived from the model. */
module GroupingExamples {
  import opened Words
  import opened Grouping

  // ----- the test data -----

  function W(text: string, start: real, end: real, speaker: string): Word {
    Word(text, start, end, speaker)
  }

  /** The eight words of test_aligner.py:11-25. */
  const TestWords: seq<Word> := [
    W("Hello", 0.0, 0.5, "A"), W("world.", 0.6, 1.0, "A"),
    W("How", 4.0, 4.2, "A"), W("are", 4.3, 4.5, "A"), W("you?", 4.6, 5.0, "A"),
    W("I", 5.1, 5.2, "B"), W("am", 5.3, 5.4, "B"), W("fine.", 5.5, 6.0, "B")]

  /** The six alternating words of test_aligner.py:123-130. */
  const AlternatingWords: seq<Word> := [
    W("Hello", 0.0, 0.5, "A"), W("Hi", 0.6, 0.8, "B"), W("there.", 0.9, 1.2, "A"),
    W("How", 1.3, 1.5, "B"), W("are", 1.6, 1.8, "A"), W("you?", 1.9, 2.2, "B")]

  /** With the default pause and minimum the test words form the three groups the test expects. */
  lemma TestWordsGroups()
    ensures GroupWords(TestWords, 0.75, 2) == [TestWords[..2], TestWords[2..5], TestWords[5..]]
  {
    var expected := [TestWords[..2], TestWords[2..5], TestWords[5..]];
    TestWordsFlatten();
    TestWordsInside();
    TestWordsBetween();
    assert IsPauseSplitOf(expected, TestWords, 0.75);
    PauseSplitUnique(expected, TestWords, 0.75);
  }

  lemma TestWordsFlatten()
    ensures Flatten([TestWords[..2], TestWords[2..5], TestWords[5..]]) == TestWords
  {
    FlattenThree(TestWords[..2], TestWords[2..5], TestWords[5..]);
    Rejoin(TestWords, 2, 5);
  }

  lemma TestWordsInside()
    ensures NoBreakInside(TestWords[..2], 0.75)
    ensures NoBreakInside(TestWords[2..5], 0.75)
    ensures NoBreakInside(TestWords[5..], 0.75)
  {
  }

  lemma TestWordsBetween()
    ensures BreaksBetween([TestWords[..2], TestWords[2..5], TestWords[5..]], 0.75)
  {
    var expected := [TestWords[..2], TestWords[2..5], TestWords[5..]];
    assert BreakBefore(expected, 1, 0.75);
    assert BreakBefore(expected, 2, 0.75);
  }

  /**
   * The tail merge joins speakers: the alternating words are six one-word groups, and the
   * last two, of speakers A and B, end up in one segment.
   */
  lemma AlternatingTailMixesSpeakers()
    ensures var r := GroupWords(AlternatingWords, 0.75, 2);
            |r| == 5 && !SingleSpeaker(r[4])
  {
    var ws := AlternatingWords;
    var expected := [[ws[0]], [ws[1]], [ws[2]], [ws[3]], [ws[4]], [ws[5]]];
    AlternatingFlatten();
    AlternatingBetween();
    assert IsPauseSplitOf(expected, ws, 0.75);
    PauseSplitUnique(expected, ws, 0.75);
    var r := GroupWords(ws, 0.75, 2);
    assert r == expected[..4] + [expected[4] + expected[5]];
    assert r[4] == [ws[4], ws[5]];
    assert r[4][1].speakerId != r[4][0].speakerId;
  }

  lemma AlternatingFlatten()
    ensures var ws := AlternatingWords;
            Flatten([[ws[0]], [ws[1]], [ws[2]], [ws[3]], [ws[4]], [ws[5]]]) == ws
  {
    var ws := AlternatingWords;
    FlattenSixSingletons(ws);
  }

  lemma AlternatingBetween()
    ensures var ws := AlternatingWords;
            BreaksBetween([[ws[0]], [ws[1]], [ws[2]], [ws[3]], [ws[4]], [ws[5]]], 0.75)
  {
    var ws := AlternatingWords;
    var expected := [[ws[0]], [ws[1]], [ws[2]], [ws[3]], [ws[4]], [ws[5]]];
    forall i | 0 < i < 6
      ensures BreakBefore(expected, i, 0.75)
    {
      assert Last(expected[i - 1]) == ws[i - 1] && expected[i][0] == ws[i];
    }
  }

  // ----- sequence facts over abstract arguments -----

  lemma FlattenThree(a: Segment, b: Segment, c: Segment)
    ensures Flatten([a, b, c]) == a + b + c
  {
    assert [a, b, c][1..] == [b, c];
    assert [b, c][1..] == [c];
    FlattenSingle(c);
  }

  lemma FlattenSixSingletons(ws: seq<Word>)
    requires |ws| == 6
    ensures Flatten([[ws[0]], [ws[1]], [ws[2]], [ws[3]], [ws[4]], [ws[5]]]) == ws
  {
    var e := [[ws[0]], [ws[1]], [ws[2]], [ws[3]], [ws[4]], [ws[5]]];
    assert Flatten(e[5..]) == [ws[5]];
    assert Flatten(e[4..]) == [ws[4]] + Flatten(e[5..]);
    assert Flatten(e[3..]) == [ws[3]] + Flatten(e[4..]);
    assert Flatten(e[2..]) == [ws[2]] + Flatten(e[3..]);
    assert Flatten(e[1..]) == [ws[1]] + Flatten(e[2..]);
    assert Flatten(e) == [ws[0]] + Flatten(e[1..]);
    assert ws == [ws[0], ws[1], ws[2], ws[3], ws[4], ws[5]];
  }

  lemma Rejoin<T>(s: seq<T>, i: nat, j: nat)
    requires i <= j <= |s|
    ensures s[..i] + s[i..j] + s[j..] == s
  {
  }
}
