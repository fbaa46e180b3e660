/**
 * `split_long_segments_on_sentence` (aligner.py:166-230): a segment that lasts longer
 * than the limit is re-cut while walking its words, each time the running text
 * (re-protected) equals the next detected sentence. A segment within the limit passes
 * through untouched.
 */
module Splitting {
  import opened PyStr
  import opened Words
  import opened Sentences

  /** `segment[-1]["end"] - segment[0]["start"]`. */
  function Duration(seg: Segment): real
    requires seg != []
  {
    seg[|seg| - 1].end - seg[0].start
  }

  /**
   * The walk at aligner.py:210-229 over the words `rest` still to visit, with the words
   * `cur` gathered since the last cut and `idx` the next sentence to look for.
   */
  function Walk(stop: (Segment, string) -> bool, sentences: seq<string>, rest: Segment, cur: Segment, idx: nat): seq<Segment>
    decreases |rest|
  {
    if rest == [] then (if cur != [] then [cur] else [])
    else
      var words := cur + [rest[0]];
      if idx < |sentences| && stop(words, sentences[idx]) then
        [words] + Walk(stop, sentences, rest[1..], [], idx + 1)
      else Walk(stop, sentences, rest[1..], words, idx)
  }

  /** The pieces a long segment is cut into: the walk with the `Matches` test. */
  function Pieces(tools: SentenceTools, seg: Segment): seq<Segment> {
    Walk(StopTest(tools), DetectSentences(tools, seg), seg, [], 0)
  }

  function SplitOne(tools: SentenceTools, seg: Segment, maxDuration: real): seq<Segment>
    requires seg != []
  {
    if Duration(seg) <= maxDuration then [seg] else Pieces(tools, seg)
  }

  /** What `split_long_segments_on_sentence` returns (it indexes every segment, so none may be empty). */
  function SplitLong(tools: SentenceTools, segs: seq<Segment>, maxDuration: real): seq<Segment>
    requires AllNonEmpty(segs)
    decreases |segs|
  {
    if segs == [] then []
    else SplitLong(tools, segs[..|segs| - 1], maxDuration) + SplitOne(tools, segs[|segs| - 1], maxDuration)
  }

  lemma SplitLongSnoc(tools: SentenceTools, segs: seq<Segment>, maxDuration: real)
    requires segs != [] && AllNonEmpty(segs)
    ensures var last := segs[|segs| - 1];
            SplitLong(tools, segs, maxDuration)
            == SplitLong(tools, segs[..|segs| - 1], maxDuration)
               + (if Duration(last) <= maxDuration then [last] else Pieces(tools, last))
  {
  }

  method SplitLongSegmentsOnSentence(tools: SentenceTools, segments: seq<Segment>, maxDuration: real)
    returns (newSegments: seq<Segment>)
    requires AllNonEmpty(segments)
    ensures newSegments == SplitLong(tools, segments, maxDuration)
  {
    newSegments := [];
    var i := 0;
    while i < |segments|
      invariant 0 <= i <= |segments|
      invariant newSegments == SplitLong(tools, segments[..i], maxDuration)
    {
      var segment := segments[i];
      assert segments[..i + 1][..i] == segments[..i];
      SplitLongSnoc(tools, segments[..i + 1], maxDuration);
      var duration := segment[|segment| - 1].end - segment[0].start;
      if duration <= maxDuration {
        newSegments := newSegments + [segment];
      } else {
        var pieces := SplitOnSentences(tools, segment);
        newSegments := newSegments + pieces;
      }
      i := i + 1;
    }
    assert segments[..i] == segments;
  }

  /** The word walk of aligner.py:205-229 for one long segment. */
  method SplitOnSentences(tools: SentenceTools, segment: Segment) returns (pieces: seq<Segment>)
    ensures pieces == Pieces(tools, segment)
  {
    var sentences := DetectSentences(tools, segment);
    ghost var goal := Walk(StopTest(tools), sentences, segment, [], 0);
    pieces := [];
    var currentText := "";
    var currentWords: Segment := [];
    var sentenceIdx := 0;
    var j := 0;
    assert segment[j..] == segment;
    assert pieces + goal == goal;
    while j < |segment|
      invariant 0 <= j <= |segment|
      invariant currentText == Accumulated(currentWords)
      invariant pieces + Walk(StopTest(tools), sentences, segment[j..], currentWords, sentenceIdx) == goal
    {
      var word := segment[j];
      ghost var before, beforeText := currentWords, currentText;
      // a space before every word that is not punctuation, except the first
      currentText := AccStep(currentText, word.text);
      currentWords := currentWords + [word];
      var matched := sentenceIdx < |sentences| && tools.protect(Strip(currentText)) == Strip(sentences[sentenceIdx]);
      WalkAdvance(tools, sentences, segment, j, before, beforeText, sentenceIdx, currentText, matched, pieces, goal);
      if matched {
        pieces := pieces + [currentWords];
        currentWords := [];
        currentText := "";
        sentenceIdx := sentenceIdx + 1;
      }
      assert pieces + Walk(StopTest(tools), sentences, segment[j + 1..], currentWords, sentenceIdx) == goal;
      j := j + 1;
    }
    assert segment[j..] == [];
    if currentWords != [] {
      pieces := pieces + [currentWords];
    }
  }

  /** What one iteration of the walk's loop does to the pieces still to come. */
  lemma WalkAdvance(tools: SentenceTools, sentences: seq<string>, segment: Segment, j: nat, cur: Segment, curText: string,
                    idx: nat, text: string, matched: bool, pieces: seq<Segment>, goal: seq<Segment>)
    requires j < |segment| && curText == Accumulated(cur) && text == AccStep(curText, segment[j].text)
    requires matched == (idx < |sentences| && tools.protect(Strip(text)) == Strip(sentences[idx]))
    requires pieces + Walk(StopTest(tools), sentences, segment[j..], cur, idx) == goal
    ensures text == Accumulated(cur + [segment[j]])
    ensures matched ==>
              (pieces + [cur + [segment[j]]]) + Walk(StopTest(tools), sentences, segment[j + 1..], [], idx + 1) == goal
    ensures !matched ==>
              pieces + Walk(StopTest(tools), sentences, segment[j + 1..], cur + [segment[j]], idx) == goal
  {
    AccumulatedSnoc(cur, segment[j]);
    var rest := segment[j..];
    assert rest[0] == segment[j] && rest[1..] == segment[j + 1..];
    WalkStep(StopTest(tools), sentences, rest, cur, idx);
    if idx < |sentences| {
      StopTestIs(tools, cur + [segment[j]], sentences[idx]);
      if matched {
        var later := Walk(StopTest(tools), sentences, segment[j + 1..], [], idx + 1);
        assert (pieces + [cur + [segment[j]]]) + later == pieces + ([cur + [segment[j]]] + later);
      }
    }
  }

  /** One step of the walk. */
  lemma WalkStep(stop: (Segment, string) -> bool, sentences: seq<string>, rest: Segment, cur: Segment, idx: nat)
    requires rest != []
    ensures Walk(stop, sentences, rest, cur, idx)
            == if idx < |sentences| && stop(cur + [rest[0]], sentences[idx])
               then [cur + [rest[0]]] + Walk(stop, sentences, rest[1..], [], idx + 1)
               else Walk(stop, sentences, rest[1..], cur + [rest[0]], idx)
  {
  }

  // ----- properties of the walk -----

  /** The pieces are non-empty and, read in order, are the gathered words followed by the rest. */
  lemma {:induction false} WalkConserves(stop: (Segment, string) -> bool, sentences: seq<string>, rest: Segment, cur: Segment, idx: nat)
    ensures var r := Walk(stop, sentences, rest, cur, idx);
            Flatten(r) == cur + rest && AllNonEmpty(r)
    decreases |rest|
  {
    if rest == [] {
      if cur != [] {
        FlattenSingle(cur);
      }
    } else {
      var words := cur + [rest[0]];
      assert words + rest[1..] == cur + rest;
      if idx < |sentences| && stop(words, sentences[idx]) {
        WalkConserves(stop, sentences, rest[1..], [], idx + 1);
        assert [] + rest[1..] == rest[1..];
      } else {
        WalkConserves(stop, sentences, rest[1..], words, idx);
      }
    }
  }

  /**
   * Every piece but the last ended on a match with the sentence it was compared to, the
   * sentences being taken in order: so the walk never uses more sentences than there are,
   * and it produces at most one piece more than the sentences it had left.
   */
  lemma {:induction false} WalkFollowsSentences(stop: (Segment, string) -> bool, sentences: seq<string>, rest: Segment, cur: Segment, idx: nat)
    requires idx <= |sentences|
    ensures var r := Walk(stop, sentences, rest, cur, idx);
            |r| <= |sentences| - idx + 1
            && forall p :: 0 <= p < |r| - 1 ==> idx + p < |sentences| && stop(r[p], sentences[idx + p])
    decreases |rest|
  {
    if rest != [] {
      var words := cur + [rest[0]];
      if idx < |sentences| && stop(words, sentences[idx]) {
        WalkFollowsSentences(stop, sentences, rest[1..], [], idx + 1);
        var tail := Walk(stop, sentences, rest[1..], [], idx + 1);
        var r := [words] + tail;
        forall p | 0 <= p < |r| - 1 ensures idx + p < |sentences| && stop(r[p], sentences[idx + p]) {
          if p > 0 {
            assert r[p] == tail[p - 1];
            assert idx + 1 + (p - 1) == idx + p;
          }
        }
      } else {
        WalkFollowsSentences(stop, sentences, rest[1..], words, idx);
      }
    }
  }

  /** When no run of words ever matches the next sentence, the walk emits everything as one piece. */
  lemma {:induction false} WalkWithoutMatch(stop: (Segment, string) -> bool, sentences: seq<string>, rest: Segment, cur: Segment, idx: nat)
    requires idx < |sentences| ==> forall k :: 1 <= k <= |rest| ==> !stop(cur + rest[..k], sentences[idx])
    ensures Walk(stop, sentences, rest, cur, idx) == if cur + rest == [] then [] else [cur + rest]
    decreases |rest|
  {
    if rest != [] {
      var words := cur + [rest[0]];
      assert rest[..1] == [rest[0]];
      forall k | 1 <= k <= |rest[1..]| ensures words + rest[1..][..k] == cur + rest[..k + 1] {
        assert rest[..k + 1] == [rest[0]] + rest[1..][..k];
      }
      WalkWithoutMatch(stop, sentences, rest[1..], words, idx);
      assert words + rest[1..] == cur + rest;
    } else {
      assert cur + rest == cur;
    }
  }

  /**
   * The walk looks for the restored sentence in the re-protected running text, so when the
   * first sentence holds a dotted acronym such as `B.M.W.`, no cut is ever made: the long
   * segment comes out whole.
   */
  lemma DottedFirstSentenceKeepsWhole(tools: SentenceTools, seg: Segment)
    requires tools.protect == ReplaceAcronyms
    requires var s := DetectSentences(tools, seg); |s| > 0 && HasDottedAcronym(Strip(s[0]))
    ensures Pieces(tools, seg) == if seg == [] then [] else [seg]
  {
    var s := DetectSentences(tools, seg);
    forall k | 1 <= k <= |seg| ensures !StopTest(tools)([] + seg[..k], s[0]) {
      assert [] + seg[..k] == seg[..k];
      DottedTargetNeverMatches(tools, seg[..k], s[0]);
    }
    WalkWithoutMatch(StopTest(tools), s, seg, [], 0);
    assert [] + seg == seg;
  }

  /** All words of a run share one speaker. */
  predicate AllOfSpeaker(ws: Segment, speaker: string) {
    forall k :: 0 <= k < |ws| ==> ws[k].speakerId == speaker
  }

  predicate PiecesOfSpeaker(pieces: seq<Segment>, speaker: string) {
    forall p :: 0 <= p < |pieces| ==> AllOfSpeaker(pieces[p], speaker)
  }

  /** The pieces of a one-speaker run are one-speaker too: the walk only cuts, it never mixes. */
  lemma {:induction false} WalkKeepsSpeaker(stop: (Segment, string) -> bool, sentences: seq<string>, rest: Segment, cur: Segment, idx: nat, speaker: string)
    requires AllOfSpeaker(cur, speaker) && AllOfSpeaker(rest, speaker)
    ensures PiecesOfSpeaker(Walk(stop, sentences, rest, cur, idx), speaker)
    decreases |rest|
  {
    if rest != [] {
      var words := cur + [rest[0]];
      assert AllOfSpeaker(words, speaker) by {
        forall k | 0 <= k < |words| ensures words[k].speakerId == speaker {
          if k < |cur| { assert words[k] == cur[k]; } else { assert words[k] == rest[0]; }
        }
      }
      assert AllOfSpeaker(rest[1..], speaker) by {
        forall k | 0 <= k < |rest[1..]| ensures rest[1..][k].speakerId == speaker {
          assert rest[1..][k] == rest[k + 1];
        }
      }
      if idx < |sentences| && stop(words, sentences[idx]) {
        WalkKeepsSpeaker(stop, sentences, rest[1..], [], idx + 1, speaker);
        var tail := Walk(stop, sentences, rest[1..], [], idx + 1);
        var r := [words] + tail;
        assert Walk(stop, sentences, rest, cur, idx) == r;
        forall p | 0 <= p < |r| ensures AllOfSpeaker(r[p], speaker) {
          if p > 0 {
            assert r[p] == tail[p - 1];
            assert AllOfSpeaker(tail[p - 1], speaker);
          }
        }
      } else {
        WalkKeepsSpeaker(stop, sentences, rest[1..], words, idx, speaker);
        assert Walk(stop, sentences, rest, cur, idx) == Walk(stop, sentences, rest[1..], words, idx);
      }
    } else {
      assert AllOfSpeaker(cur, speaker);
    }
  }

  // ----- split_long_segments_on_sentence -----

  /**
   * One segment becomes consecutive non-empty pieces that spell it out exactly; a segment
   * within the limit is its own single piece.
   */
  lemma SplitOneConserves(tools: SentenceTools, seg: Segment, maxDuration: real)
    requires seg != []
    ensures var r := SplitOne(tools, seg, maxDuration);
            Flatten(r) == seg && AllNonEmpty(r) && (Duration(seg) <= maxDuration ==> r == [seg])
  {
    if Duration(seg) <= maxDuration {
      FlattenSingle(seg);
    } else {
      WalkConserves(StopTest(tools), DetectSentences(tools, seg), seg, [], 0);
      assert [] + seg == seg;
    }
  }

  /** The stage keeps every word, in order, and makes no empty segment. */
  lemma {:induction false} SplitLongConserves(tools: SentenceTools, segs: seq<Segment>, maxDuration: real)
    requires AllNonEmpty(segs)
    ensures var r := SplitLong(tools, segs, maxDuration);
            Flatten(r) == Flatten(segs) && AllNonEmpty(r)
    decreases |segs|
  {
    if segs != [] {
      var front := segs[..|segs| - 1];
      var last := segs[|segs| - 1];
      assert segs == front + [last];
      SplitLongConserves(tools, front, maxDuration);
      SplitOneConserves(tools, last, maxDuration);
      FlattenAppend(SplitLong(tools, front, maxDuration), SplitOne(tools, last, maxDuration));
      FlattenSnoc(front, last);
    }
  }

  /** A segment of one speaker is only ever cut into pieces of that speaker. */
  lemma SplitOneKeepsSpeaker(tools: SentenceTools, seg: Segment, maxDuration: real)
    requires seg != [] && SingleSpeaker(seg)
    ensures PiecesOfSpeaker(SplitOne(tools, seg, maxDuration), seg[0].speakerId)
  {
    if Duration(seg) <= maxDuration {
      assert AllOfSpeaker(seg, seg[0].speakerId);
    } else {
      WalkKeepsSpeaker(StopTest(tools), DetectSentences(tools, seg), seg, [], 0, seg[0].speakerId);
    }
  }
}
