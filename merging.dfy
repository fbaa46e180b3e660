/**
 * `merge_on_sentence_boundary` (aligner.py:103-163). The words of the incoming segments
 * are added to one buffer that is carried from segment to segment. Whenever the buffer's
 * text holds more than one sentence, the shortest prefix of the buffer whose running text
 * (re-protected) equals all complete sentences is emitted, and the buffer keeps the words
 * after it. What is left at the end is emitted as the last segment.
 */
module Merging {
  import opened PyStr
  import opened Words
  import opened Sentences

  /**
   * The inner word loop of aligner.py:148-155, from the `k`-th word on: the first length
   * at which the running text matches `target`, or the whole buffer when it never does.
   */
  function CutFrom(stop: (Segment, string) -> bool, buf: Segment, target: string, k: nat): (c: nat)
    requires 1 <= k <= |buf|
    ensures k <= c <= |buf|
    decreases |buf| - k
  {
    if stop(buf[..k], target) || k == |buf| then k else CutFrom(stop, buf, target, k + 1)
  }

  /** The number of buffer words `finalized_words` takes (none from an empty buffer). */
  function Cut(stop: (Segment, string) -> bool, buf: Segment, target: string): (c: nat)
    ensures c <= |buf| && (buf != [] ==> 1 <= c)
  {
    if buf == [] then 0 else CutFrom(stop, buf, target, 1)
  }

  /**
   * The loop over the remaining segments with the carried buffer. `detect` stands for the
   * sentence detection of aligner.py:137-140 and `stop` for the test of aligner.py:154.
   */
  function MergeWith(detect: Segment -> seq<string>, stop: (Segment, string) -> bool,
                     segs: seq<Segment>, buffer: Segment): seq<Segment>
    decreases |segs|
  {
    if segs == [] then (if buffer != [] then [buffer] else [])
    else
      var buf := buffer + segs[0];
      var sentences := detect(buf);
      if |sentences| > 1 then
        var c := Cut(stop, buf, Join(" ", sentences[..|sentences| - 1]));
        [buf[..c]] + MergeWith(detect, stop, segs[1..], buf[c..])
      else MergeWith(detect, stop, segs[1..], buf)
  }

  /** What `merge_on_sentence_boundary` returns. */
  function Merge(tools: SentenceTools, segs: seq<Segment>): seq<Segment> {
    MergeWith(DetectTest(tools), StopTest(tools), segs, [])
  }

  method MergeOnSentenceBoundary(tools: SentenceTools, segments: seq<Segment>) returns (merged: seq<Segment>)
    ensures merged == Merge(tools, segments)
  {
    ghost var detect := DetectTest(tools);
    ghost var stop := StopTest(tools);
    ghost var goal := MergeWith(detect, stop, segments, []);
    merged := [];
    var buffer: Segment := [];
    var i := 0;
    while i < |segments|
      invariant 0 <= i <= |segments|
      invariant merged + MergeWith(detect, stop, segments[i..], buffer) == goal
    {
      MergeStep(detect, stop, segments[i..], buffer);
      assert segments[i..][0] == segments[i] && segments[i..][1..] == segments[i + 1..];
      buffer := buffer + segments[i];
      var sentences := DetectSentences(tools, buffer);
      assert sentences == detect(buffer);
      if |sentences| > 1 {
        var finalizedText := Join(" ", sentences[..|sentences| - 1]);
        var finalizedWords, remaining := TakeSentences(tools, buffer, finalizedText);
        ghost var later := MergeWith(detect, stop, segments[i + 1..], remaining);
        assert merged + [finalizedWords] + later == merged + ([finalizedWords] + later);
        merged := merged + [finalizedWords];
        buffer := remaining;
      }
      i := i + 1;
    }
    if buffer != [] {
      merged := merged + [buffer];
    }
  }

  /**
   * The loop of aligner.py:146-158: the words up to the first match with `finalizedText`,
   * and the words the shared iterator has not consumed yet.
   */
  method TakeSentences(tools: SentenceTools, buffer: Segment, finalizedText: string)
    returns (finalizedWords: Segment, remaining: Segment)
    ensures var c := Cut(StopTest(tools), buffer, finalizedText);
            finalizedWords == buffer[..c] && remaining == buffer[c..]
  {
    ghost var c := Cut(StopTest(tools), buffer, finalizedText);
    finalizedWords := [];
    var currentText := "";
    var j := 0;
    CutStart(tools, buffer, finalizedText);
    while j < |buffer|
      invariant 0 <= j <= |buffer|
      invariant finalizedWords == buffer[..j]
      invariant currentText == Accumulated(finalizedWords)
      invariant c == CutAfter(tools, buffer, finalizedText, j)
    {
      var word := buffer[j];
      ghost var before, beforeText := finalizedWords, currentText;
      // a space before every word that is not punctuation, except the first
      currentText := AccStep(currentText, word.text);
      finalizedWords := finalizedWords + [word];
      var matched := tools.protect(Strip(currentText)) == Strip(finalizedText);
      TakeStep(tools, buffer, finalizedText, j, before, beforeText, finalizedWords, currentText, matched);
      j := j + 1;
      if matched {
        break;
      }
    }
    remaining := buffer[j..];
  }

  /** The cut, once the loop has taken `j` words without a match. */
  function CutAfter(tools: SentenceTools, buf: Segment, target: string, j: nat): nat
    requires j <= |buf|
  {
    if j == |buf| then j else CutFrom(StopTest(tools), buf, target, j + 1)
  }

  lemma CutStart(tools: SentenceTools, buf: Segment, target: string)
    ensures Cut(StopTest(tools), buf, target) == CutAfter(tools, buf, target, 0)
  {
  }

  /** One iteration of the word loop: the words taken grow by one and the running text follows them. */
  lemma TakeStep(tools: SentenceTools, buf: Segment, target: string, j: nat, before: Segment, beforeText: string,
                 words: Segment, text: string, matched: bool)
    requires j < |buf| && before == buf[..j] && beforeText == Accumulated(before)
    requires words == before + [buf[j]] && text == AccStep(beforeText, buf[j].text)
    requires matched == (tools.protect(Strip(text)) == Strip(target))
    ensures words == buf[..j + 1] && text == Accumulated(words)
    ensures matched ==> CutAfter(tools, buf, target, j) == j + 1
    ensures !matched ==> CutAfter(tools, buf, target, j) == CutAfter(tools, buf, target, j + 1)
  {
    AccumulatedSnoc(before, buf[j]);
    SliceSnoc(buf, j);
    CutAdvance(tools, buf, target, j, text, matched);
  }

  /** What the test at the end of an iteration of the word loop says about the cut. */
  lemma CutAdvance(tools: SentenceTools, buf: Segment, target: string, j: nat, text: string, matched: bool)
    requires j < |buf| && text == Accumulated(buf[..j + 1])
    requires matched == (tools.protect(Strip(text)) == Strip(target))
    ensures matched ==> CutAfter(tools, buf, target, j) == j + 1
    ensures !matched ==> CutAfter(tools, buf, target, j) == CutAfter(tools, buf, target, j + 1)
  {
    StopTestIs(tools, buf[..j + 1], target);
    CutFromStep(StopTest(tools), buf, target, j + 1);
  }

  lemma CutFromStep(stop: (Segment, string) -> bool, buf: Segment, target: string, k: nat)
    requires 1 <= k <= |buf|
    ensures CutFrom(stop, buf, target, k)
            == if stop(buf[..k], target) || k == |buf| then k else CutFrom(stop, buf, target, k + 1)
  {
  }

  /** One step of the segment loop. */
  lemma MergeStep(detect: Segment -> seq<string>, stop: (Segment, string) -> bool, segs: seq<Segment>, buffer: Segment)
    requires segs != []
    ensures var buf := buffer + segs[0];
            var sentences := detect(buf);
            MergeWith(detect, stop, segs, buffer)
            == if |sentences| > 1
               then var c := Cut(stop, buf, Join(" ", sentences[..|sentences| - 1]));
                    [buf[..c]] + MergeWith(detect, stop, segs[1..], buf[c..])
               else MergeWith(detect, stop, segs[1..], buf)
  {
  }

  // ----- the cut -----

  /**
   * The cut is the FIRST length at which the running text matches, and the whole buffer
   * when no length does: so a buffer that never matches is emitted entirely and the
   * buffer empties.
   */
  lemma CutSpec(stop: (Segment, string) -> bool, buf: Segment, target: string)
    ensures var c := Cut(stop, buf, target);
            c <= |buf| && (buf != [] ==> 1 <= c)
            && (forall k :: 1 <= k < c ==> !stop(buf[..k], target))
            && (c < |buf| ==> stop(buf[..c], target))
            && ((forall k :: 1 <= k <= |buf| ==> !stop(buf[..k], target)) ==> c == |buf|)
  {
    if buf != [] {
      CutFromSpec(stop, buf, target, 1);
    }
  }

  lemma {:induction false} CutFromSpec(stop: (Segment, string) -> bool, buf: Segment, target: string, k: nat)
    requires 1 <= k <= |buf|
    ensures var c := CutFrom(stop, buf, target, k);
            k <= c <= |buf|
            && (forall m :: k <= m < c ==> !stop(buf[..m], target))
            && (c < |buf| ==> stop(buf[..c], target))
    decreases |buf| - k
  {
    if !stop(buf[..k], target) && k < |buf| {
      CutFromSpec(stop, buf, target, k + 1);
    }
  }

  /**
   * The stop test compares the re-protected running text with the restored sentences, so
   * a finalized text holding a dotted acronym such as `B.M.W.` is never reached: the cut
   * takes the whole buffer.
   */
  lemma DottedTargetTakesWholeBuffer(tools: SentenceTools, buf: Segment, target: string)
    requires tools.protect == ReplaceAcronyms
    requires HasDottedAcronym(Strip(target))
    ensures Cut(StopTest(tools), buf, target) == |buf|
  {
    forall k | 1 <= k <= |buf| ensures !StopTest(tools)(buf[..k], target) {
      DottedTargetNeverMatches(tools, buf[..k], target);
    }
    CutSpec(StopTest(tools), buf, target);
  }

  /**
   * When the complete sentences of the buffer hold a dotted acronym, the stage emits the
   * whole buffer, the incoming segment included, and starts the next segment afresh: the
   * incomplete last sentence is not carried over.
   */
  lemma DottedSentencesFlushBuffer(tools: SentenceTools, segs: seq<Segment>, buffer: Segment)
    requires tools.protect == ReplaceAcronyms
    requires segs != []
    requires var s := DetectSentences(tools, buffer + segs[0]);
             |s| > 1 && HasDottedAcronym(Strip(Join(" ", s[..|s| - 1])))
    ensures MergeWith(DetectTest(tools), StopTest(tools), segs, buffer)
            == [buffer + segs[0]] + MergeWith(DetectTest(tools), StopTest(tools), segs[1..], [])
  {
    var buf := buffer + segs[0];
    var s := DetectSentences(tools, buf);
    assert DetectTest(tools)(buf) == s;
    DottedTargetTakesWholeBuffer(tools, buf, Join(" ", s[..|s| - 1]));
    WholeCutFlushes(DetectTest(tools), StopTest(tools), segs, buffer);
  }

  /** A cut that takes the whole buffer empties it. */
  lemma WholeCutFlushes(detect: Segment -> seq<string>, stop: (Segment, string) -> bool, segs: seq<Segment>, buffer: Segment)
    requires segs != []
    requires var s := detect(buffer + segs[0]);
             |s| > 1 && Cut(stop, buffer + segs[0], Join(" ", s[..|s| - 1])) == |buffer + segs[0]|
    ensures MergeWith(detect, stop, segs, buffer) == [buffer + segs[0]] + MergeWith(detect, stop, segs[1..], [])
  {
    var buf := buffer + segs[0];
    assert buf[..|buf|] == buf && buf[|buf|..] == [];
  }

  // ----- properties of the merge -----

  /** No word is lost, duplicated or reordered: the output spells out the buffer and then the input. */
  lemma {:induction false} MergeConserves(detect: Segment -> seq<string>, stop: (Segment, string) -> bool, segs: seq<Segment>, buffer: Segment)
    ensures Flatten(MergeWith(detect, stop, segs, buffer)) == buffer + Flatten(segs)
    decreases |segs|
  {
    if segs == [] {
      if buffer != [] {
        FlattenSingle(buffer);
      }
      assert buffer + [] == buffer;
    } else {
      var buf := buffer + segs[0];
      var sentences := detect(buf);
      MergeStep(detect, stop, segs, buffer);
      if |sentences| > 1 {
        var c := Cut(stop, buf, Join(" ", sentences[..|sentences| - 1]));
        MergeConserves(detect, stop, segs[1..], buf[c..]);
        ConservesOnCut(detect, stop, segs, buffer, c);
      } else {
        MergeConserves(detect, stop, segs[1..], buf);
        assert Flatten(segs) == segs[0] + Flatten(segs[1..]);
      }
    }
  }

  lemma ConservesOnCut(detect: Segment -> seq<string>, stop: (Segment, string) -> bool, segs: seq<Segment>, buffer: Segment, c: nat)
    requires segs != [] && c <= |buffer + segs[0]|
    requires var buf := buffer + segs[0];
             Flatten(MergeWith(detect, stop, segs[1..], buf[c..])) == buf[c..] + Flatten(segs[1..])
    ensures var buf := buffer + segs[0];
            Flatten([buf[..c]] + MergeWith(detect, stop, segs[1..], buf[c..])) == buffer + Flatten(segs)
  {
    var buf := buffer + segs[0];
    CutPieceConserves(buffer, segs, c, MergeWith(detect, stop, segs[1..], buf[c..]));
  }

  lemma CutPieceConserves(buffer: Segment, segs: seq<Segment>, c: nat, tail: seq<Segment>)
    requires segs != [] && c <= |buffer + segs[0]|
    requires var buf := buffer + segs[0]; Flatten(tail) == buf[c..] + Flatten(segs[1..])
    ensures var buf := buffer + segs[0]; Flatten([buf[..c]] + tail) == buffer + Flatten(segs)
  {
    var buf := buffer + segs[0];
    var rest := Flatten(segs[1..]);
    FlattenAppend([buf[..c]], tail);
    FlattenSingle(buf[..c]);
    assert Flatten(segs) == segs[0] + rest;
    SplitRejoin(buf, c, rest);
    AppendAssoc(buffer, segs[0], rest);
  }

  /** From non-empty segments the merge makes only non-empty segments. */
  lemma {:induction false} MergeNonEmpty(detect: Segment -> seq<string>, stop: (Segment, string) -> bool, segs: seq<Segment>, buffer: Segment)
    requires AllNonEmpty(segs)
    ensures AllNonEmpty(MergeWith(detect, stop, segs, buffer))
    decreases |segs|
  {
    if segs != [] {
      var buf := buffer + segs[0];
      var sentences := detect(buf);
      assert AllNonEmpty(segs[1..]) by {
        forall p | 0 <= p < |segs[1..]| ensures segs[1..][p] != [] {
          assert segs[1..][p] == segs[p + 1];
        }
      }
      if |sentences| > 1 {
        var c := Cut(stop, buf, Join(" ", sentences[..|sentences| - 1]));
        CutSpec(stop, buf, Join(" ", sentences[..|sentences| - 1]));
        MergeNonEmpty(detect, stop, segs[1..], buf[c..]);
        var tail := MergeWith(detect, stop, segs[1..], buf[c..]);
        forall p | 0 <= p < |[buf[..c]] + tail| ensures ([buf[..c]] + tail)[p] != [] {
          if p > 0 {
            assert ([buf[..c]] + tail)[p] == tail[p - 1];
          }
        }
      } else {
        MergeNonEmpty(detect, stop, segs[1..], buf);
      }
    }
  }

  /** Every input segment emits at most one output, and the final buffer one more. */
  lemma {:induction false} MergeCount(detect: Segment -> seq<string>, stop: (Segment, string) -> bool, segs: seq<Segment>, buffer: Segment)
    ensures |MergeWith(detect, stop, segs, buffer)| <= |segs| + 1
    decreases |segs|
  {
    if segs != [] {
      var buf := buffer + segs[0];
      var sentences := detect(buf);
      if |sentences| > 1 {
        var c := Cut(stop, buf, Join(" ", sentences[..|sentences| - 1]));
        MergeCount(detect, stop, segs[1..], buf[c..]);
      } else {
        MergeCount(detect, stop, segs[1..], buf);
      }
    }
  }

  /**
   * While the buffer never holds two sentences, nothing is emitted: the buffer grows
   * across segment boundaries (and so across speakers and pauses) and all of it comes out
   * as one segment at the end.
   */
  lemma {:induction false} MergeWithoutSentences(detect: Segment -> seq<string>, stop: (Segment, string) -> bool, segs: seq<Segment>, buffer: Segment)
    requires forall i :: 1 <= i <= |segs| ==> |detect(buffer + Flatten(segs[..i]))| <= 1
    ensures MergeWith(detect, stop, segs, buffer) == if buffer + Flatten(segs) == [] then [] else [buffer + Flatten(segs)]
    decreases |segs|
  {
    if segs == [] {
      assert buffer + Flatten(segs) == buffer;
    } else {
      var buf := buffer + segs[0];
      assert segs[..1] == [segs[0]];
      FlattenSingle(segs[0]);
      forall i | 1 <= i <= |segs[1..]| ensures |detect(buf + Flatten(segs[1..][..i]))| <= 1 {
        assert segs[..i + 1] == [segs[0]] + segs[1..][..i];
        FlattenAppend([segs[0]], segs[1..][..i]);
        assert buf + Flatten(segs[1..][..i]) == buffer + Flatten(segs[..i + 1]);
      }
      MergeWithoutSentences(detect, stop, segs[1..], buf);
      assert Flatten(segs) == segs[0] + Flatten(segs[1..]);
      assert buf + Flatten(segs[1..]) == buffer + Flatten(segs);
    }
  }

  /** The stage keeps every word in order and, from non-empty segments, makes no empty segment. */
  lemma MergeSpec(tools: SentenceTools, segs: seq<Segment>)
    ensures var r := Merge(tools, segs);
            Flatten(r) == Flatten(segs) && |r| <= |segs| + 1
            && (AllNonEmpty(segs) ==> AllNonEmpty(r))
  {
    MergeConserves(DetectTest(tools), StopTest(tools), segs, []);
    assert [] + Flatten(segs) == Flatten(segs);
    MergeCount(DetectTest(tools), StopTest(tools), segs, []);
    if AllNonEmpty(segs) {
      MergeNonEmpty(DetectTest(tools), StopTest(tools), segs, []);
    }
  }
}
