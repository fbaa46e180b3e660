/** The sentence merge, worked out for small inputs with the standard tokenizer. */
module MergingExamples {
  import opened PyStr
  import opened Words
  import opened Sentences
  import opened Merging

  /** A text without terminators and without periods is one sentence, whatever the protection. */
  lemma OneSentence(ws: Segment)
    requires '.' !in SpaceJoined(ws) && NoBoundary(SpaceJoined(ws))
    requires SpaceJoined(ws) != [] && IsStripped(SpaceJoined(ws))
    ensures |DetectSentences(StandardTools, ws)| == 1
  {
    var text := SpaceJoined(ws);
    ReplaceWithoutPeriods(text);
    TokenizeWithoutBoundary(text);
    StripOfStripped(text);
  }

  /** A non-empty run of ASCII letters, like most words a recognizer emits. */
  predicate IsPlainWord(t: string) {
    t != [] && forall k :: 0 <= k < |t| ==> IsAsciiUpper(t[k]) || IsAsciiLower(t[k])
  }

  /** Letters and single spaces only: no terminator, no period, no surrounding space. */
  predicate IsPlainText(t: string) {
    t != [] && !IsSpace(t[0]) && !IsSpace(t[|t| - 1])
    && forall k :: 0 <= k < |t| ==> IsAsciiUpper(t[k]) || IsAsciiLower(t[k]) || t[k] == ' '
  }

  lemma PlainTextIsOneSentence(ws: Segment)
    requires IsPlainText(SpaceJoined(ws))
    ensures |DetectTest(StandardTools)(ws)| == 1
  {
    var t := SpaceJoined(ws);
    assert '.' !in t by {
      forall k | 0 <= k < |t| ensures t[k] != '.' { }
    }
    assert NoBoundary(t) by {
      forall k | 0 <= k < |t| ensures !BoundaryAt(t, k) {
        assert !IsTerminator(t[k]);
      }
    }
    OneSentence(ws);
  }

  lemma OneWordIsPlain(a: Word)
    requires IsPlainWord(a.text)
    ensures IsPlainText(SpaceJoined([a]))
  {
    assert Texts([a]) == [a.text];
  }

  lemma TwoWordsArePlain(a: Word, b: Word)
    requires IsPlainWord(a.text) && IsPlainWord(b.text)
    ensures IsPlainText(SpaceJoined([a, b]))
  {
    assert Texts([a, b]) == [a.text, b.text];
    assert Join(" ", [b.text]) == b.text;
    var t := a.text + " " + b.text;
    assert SpaceJoined([a, b]) == t;
    forall k | 0 <= k < |t| ensures IsAsciiUpper(t[k]) || IsAsciiLower(t[k]) || t[k] == ' ' {
      if k < |a.text| {
        assert t[k] == a.text[k];
      } else if k > |a.text| {
        assert t[k] == b.text[k - |a.text| - 1];
      }
    }
    assert t[|t| - 1] == b.text[|b.text| - 1];
  }

  /** For any detection under which neither buffer holds two sentences, the two words come out together. */
  lemma PairMergesWith(detect: Segment -> seq<string>, stop: (Segment, string) -> bool, a: Word, b: Word)
    requires |detect([a])| <= 1 && |detect([a, b])| <= 1
    ensures MergeWith(detect, stop, [[a], [b]], []) == [[a, b]]
  {
    MergeStep(detect, stop, [[a], [b]], []);
    assert [] + [a] == [a];
    assert [[a], [b]][1..] == [[b]];
    MergeStep(detect, stop, [[b]], [a]);
    assert [a] + [b] == [a, b];
    assert [[b]][1..] == [];
  }

  /**
   * The merge does not respect speaker boundaries: two one-word segments of different
   * speakers whose words are plain words form no complete sentence, and come out as ONE
   * segment that mixes the two speakers.
   */
  lemma MergeJoinsSpeakers(a: Word, b: Word)
    requires IsPlainWord(a.text) && IsPlainWord(b.text) && a.speakerId != b.speakerId
    ensures var r := Merge(StandardTools, [[a], [b]]);
            r == [[a, b]] && !SingleSpeaker(r[0])
  {
    OneWordIsPlain(a);
    TwoWordsArePlain(a, b);
    PlainTextIsOneSentence([a]);
    PlainTextIsOneSentence([a, b]);
    PairMergesWith(DetectTest(StandardTools), StopTest(StandardTools), a, b);
    var ab := [a, b];
    assert ab[1].speakerId != ab[0].speakerId;
  }
}
