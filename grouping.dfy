/**
 * `initial_grouping` (aligner.py:63-100): words are cut into segments at every long
 * pause or change of speaker, then a too-short last segment is glued onto the one
 * before it, whatever its speaker.
 */
module Grouping {
  import opened PyStr
  import opened Words

  /** A new segment starts before `w`: the gap after `prev` exceeds the pause, or the speaker changes. */
  predicate Breaks(prev: Word, w: Word, pause: real) {
    w.start - prev.end > pause || w.speakerId != prev.speakerId
  }

  function Last(seg: Segment): Word
    requires seg != []
  {
    seg[|seg| - 1]
  }

  /** The segments before the tail merge, built word by word as the loop at aligner.py:85-94 does. */
  function PauseSplit(ws: seq<Word>, pause: real): (r: seq<Segment>)
    requires ws != []
    ensures r != [] && r[|r| - 1] != [] && Last(r[|r| - 1]) == ws[|ws| - 1]
    decreases |ws|
  {
    if |ws| == 1 then [[ws[0]]]
    else
      var prev := PauseSplit(ws[..|ws| - 1], pause);
      var w := ws[|ws| - 1];
      if Breaks(ws[|ws| - 2], w, pause) then prev + [[w]]
      else prev[..|prev| - 1] + [prev[|prev| - 1] + [w]]
  }

  /** The merge at aligner.py:97-98: it looks only at the last segment's length, never at speakers. */
  function TailMerge(segs: seq<Segment>, minWords: int): seq<Segment> {
    if |segs| > 1 && |segs[|segs| - 1]| < minWords then
      segs[..|segs| - 2] + [segs[|segs| - 2] + segs[|segs| - 1]]
    else segs
  }

  /** What `initial_grouping` returns. */
  function GroupWords(ws: seq<Word>, pause: real, minWords: int): seq<Segment> {
    if ws == [] then [] else TailMerge(PauseSplit(ws, pause), minWords)
  }

  method InitialGrouping(words: seq<Word>, bigPauseSeconds: real, minWordsInSegment: int)
    returns (segments: seq<Segment>)
    ensures segments == GroupWords(words, bigPauseSeconds, minWordsInSegment)
  {
    segments := [];
    if words == [] {
      return;
    }
    var current: Segment := [words[0]];
    var i := 1;
    while i < |words|
      invariant 1 <= i <= |words|
      invariant current != [] && current[|current| - 1] == words[i - 1]
      invariant segments + [current] == PauseSplit(words[..i], bigPauseSeconds)
    {
      var word := words[i];
      var broke := word.start - current[|current| - 1].end > bigPauseSeconds || word.speakerId != current[|current| - 1].speakerId;
      PauseSplitLoopStep(words, i, bigPauseSeconds, segments, current, broke);
      if broke {
        segments := segments + [current];
        current := [word];
      } else {
        current := current + [word];
      }
      assert segments + [current] == PauseSplit(words[..i + 1], bigPauseSeconds);
      i := i + 1;
    }
    assert words[..i] == words;
    segments := segments + [current];
    if |segments[|segments| - 1]| < minWordsInSegment && |segments| > 1 {
      TailMergePop(segments, minWordsInSegment);
      var popped := segments[|segments| - 1];
      segments := segments[..|segments| - 1];
      segments := segments[..|segments| - 1] + [segments[|segments| - 1] + popped];
    }
  }

  /** Popping the last segment and appending it to the new last one is the tail merge. */
  lemma TailMergePop(segs: seq<Segment>, minWords: int)
    requires |segs| > 1 && |segs[|segs| - 1]| < minWords
    ensures var rest := segs[..|segs| - 1];
            TailMerge(segs, minWords) == rest[..|rest| - 1] + [rest[|rest| - 1] + segs[|segs| - 1]]
  {
    var rest := segs[..|segs| - 1];
    assert rest[..|rest| - 1] == segs[..|segs| - 2] && rest[|rest| - 1] == segs[|segs| - 2];
  }

  /** One iteration of the loop at aligner.py:85-94: a break opens a segment, otherwise the word joins the last one. */
  lemma PauseSplitLoopStep(ws: seq<Word>, i: nat, pause: real, segments: seq<Segment>, current: Segment, broke: bool)
    requires 1 <= i < |ws| && current != [] && current[|current| - 1] == ws[i - 1]
    requires segments + [current] == PauseSplit(ws[..i], pause)
    requires broke == Breaks(current[|current| - 1], ws[i], pause)
    ensures broke ==> (segments + [current]) + [[ws[i]]] == PauseSplit(ws[..i + 1], pause)
    ensures !broke ==> segments + [current + [ws[i]]] == PauseSplit(ws[..i + 1], pause)
  {
    PrefixParts(ws, i);
    SnocParts(segments, current);
  }

  // ----- the pause split: conservation and its boundaries -----

  /** No segment is empty and, read in order, the segments are the words. */
  lemma {:induction false} PauseSplitConserves(ws: seq<Word>, pause: real)
    requires ws != []
    ensures Flatten(PauseSplit(ws, pause)) == ws && AllNonEmpty(PauseSplit(ws, pause))
    decreases |ws|
  {
    if |ws| == 1 {
      FlattenSingle([ws[0]]);
    } else {
      PauseSplitConserves(ws[..|ws| - 1], pause);
      if Breaks(ws[|ws| - 2], ws[|ws| - 1], pause) {
        ConservesOnBreak(ws, pause);
      } else {
        ConservesOnJoin(ws, pause);
      }
    }
  }

  lemma ConservesOnBreak(ws: seq<Word>, pause: real)
    requires |ws| > 1 && Breaks(ws[|ws| - 2], ws[|ws| - 1], pause)
    requires var prev := PauseSplit(ws[..|ws| - 1], pause); Flatten(prev) == ws[..|ws| - 1] && AllNonEmpty(prev)
    ensures Flatten(PauseSplit(ws, pause)) == ws && AllNonEmpty(PauseSplit(ws, pause))
  {
    var prev := PauseSplit(ws[..|ws| - 1], pause);
    assert ws[..|ws| - 1] + [ws[|ws| - 1]] == ws;
    FlattenSnoc(prev, [ws[|ws| - 1]]);
  }

  lemma ConservesOnJoin(ws: seq<Word>, pause: real)
    requires |ws| > 1 && !Breaks(ws[|ws| - 2], ws[|ws| - 1], pause)
    requires var prev := PauseSplit(ws[..|ws| - 1], pause); Flatten(prev) == ws[..|ws| - 1] && AllNonEmpty(prev)
    ensures Flatten(PauseSplit(ws, pause)) == ws && AllNonEmpty(PauseSplit(ws, pause))
  {
    var prev := PauseSplit(ws[..|ws| - 1], pause);
    assert ws[..|ws| - 1] + [ws[|ws| - 1]] == ws;
    FlattenExtendLast(prev, ws[|ws| - 1]);
    ExtendLastNonEmpty(prev, ws[|ws| - 1]);
  }

  lemma ExtendLastNonEmpty(segs: seq<Segment>, w: Word)
    requires segs != [] && AllNonEmpty(segs)
    ensures AllNonEmpty(segs[..|segs| - 1] + [segs[|segs| - 1] + [w]])
  {
  }

  lemma FlattenExtendLast(segs: seq<Segment>, w: Word)
    requires segs != []
    ensures Flatten(segs[..|segs| - 1] + [segs[|segs| - 1] + [w]]) == Flatten(segs) + [w]
  {
    var front := segs[..|segs| - 1];
    var last := segs[|segs| - 1];
    assert segs == front + [last];
    FlattenExtendLastOf(front, last, w);
  }

  lemma FlattenExtendLastOf(front: seq<Segment>, last: Segment, w: Word)
    ensures Flatten(front + [last + [w]]) == Flatten(front + [last]) + [w]
  {
    FlattenSnoc(front, last);
    FlattenSnoc(front, last + [w]);
  }

  /** Consecutive words of one segment never break. */
  predicate NoBreakInside(seg: Segment, pause: real) {
    forall k :: 0 < k < |seg| ==> !Breaks(seg[k - 1], seg[k], pause)
  }

  /** Segment `i` begins with a break after the last word of segment `i - 1`. */
  predicate BreakBefore(segs: seq<Segment>, i: int, pause: real)
    requires 0 < i < |segs|
  {
    segs[i - 1] != [] && segs[i] != [] && Breaks(Last(segs[i - 1]), segs[i][0], pause)
  }

  predicate BreaksBetween(segs: seq<Segment>, pause: real) {
    forall i :: 0 < i < |segs| ==> BreakBefore(segs, i, pause)
  }

  predicate IsPauseSplitOf(segs: seq<Segment>, ws: seq<Word>, pause: real) {
    Flatten(segs) == ws && AllNonEmpty(segs)
    && (forall i :: 0 <= i < |segs| ==> NoBreakInside(segs[i], pause))
    && BreaksBetween(segs, pause)
  }

  /** A segment starts exactly where `Breaks` holds: never inside a segment, always between two. */
  lemma {:induction false} PauseSplitBoundaries(ws: seq<Word>, pause: real)
    requires ws != []
    ensures IsPauseSplitOf(PauseSplit(ws, pause), ws, pause)
    decreases |ws|
  {
    PauseSplitConserves(ws, pause);
    if |ws| > 1 {
      var init := ws[..|ws| - 1];
      var w := ws[|ws| - 1];
      var prev := PauseSplit(init, pause);
      PauseSplitBoundaries(init, pause);
      assert ws[|ws| - 2] == Last(prev[|prev| - 1]);
      if Breaks(ws[|ws| - 2], w, pause) {
        AddBreakingWord(prev, pause, w);
      } else {
        AddJoiningWord(prev, pause, w);
      }
    }
  }

  lemma AddBreakingWord(prev: seq<Segment>, pause: real, w: Word)
    requires prev != [] && (forall i :: 0 <= i < |prev| ==> NoBreakInside(prev[i], pause)) && BreaksBetween(prev, pause)
    requires prev[|prev| - 1] != [] && Breaks(Last(prev[|prev| - 1]), w, pause)
    ensures var r := prev + [[w]];
            (forall i :: 0 <= i < |r| ==> NoBreakInside(r[i], pause)) && BreaksBetween(r, pause)
  {
    var r := prev + [[w]];
    forall i | 0 <= i < |r| ensures NoBreakInside(r[i], pause) {
      if i < |prev| { assert r[i] == prev[i]; }
    }
    forall i | 0 < i < |r| ensures BreakBefore(r, i, pause) {
      assert r[i - 1] == prev[i - 1];
      if i < |prev| {
        assert r[i] == prev[i];
        assert BreakBefore(prev, i, pause);
      }
    }
  }

  lemma AddJoiningWord(prev: seq<Segment>, pause: real, w: Word)
    requires prev != [] && (forall i :: 0 <= i < |prev| ==> NoBreakInside(prev[i], pause)) && BreaksBetween(prev, pause)
    requires prev[|prev| - 1] != [] && !Breaks(Last(prev[|prev| - 1]), w, pause)
    ensures var r := prev[..|prev| - 1] + [prev[|prev| - 1] + [w]];
            (forall i :: 0 <= i < |r| ==> NoBreakInside(r[i], pause)) && BreaksBetween(r, pause)
  {
    var last := prev[|prev| - 1];
    var r := prev[..|prev| - 1] + [last + [w]];
    assert NoBreakInside(last, pause);
    assert NoBreakInside(last + [w], pause) by {
      forall k | 0 < k < |last + [w]| ensures !Breaks((last + [w])[k - 1], (last + [w])[k], pause) {
        if k < |last| {
          assert (last + [w])[k - 1] == last[k - 1] && (last + [w])[k] == last[k];
        }
      }
    }
    forall i | 0 <= i < |r| ensures NoBreakInside(r[i], pause) {
      if i < |prev| - 1 { assert r[i] == prev[i]; }
    }
    forall i | 0 < i < |r| ensures BreakBefore(r, i, pause) {
      assert BreakBefore(prev, i, pause);
      assert r[i - 1] == prev[i - 1] && r[i][0] == prev[i][0];
    }
  }

  /**
   * The pause split is the ONLY list of segments with those boundaries: any non-empty
   * segments that spell out the words, break nowhere inside and break between every two
   * of them are exactly what the loop builds.
   */
  lemma {:induction false} PauseSplitUnique(segs: seq<Segment>, ws: seq<Word>, pause: real)
    requires ws != [] && IsPauseSplitOf(segs, ws, pause)
    ensures segs == PauseSplit(ws, pause)
    decreases |ws|
  {
    SplitOfNonEmpty(segs, ws, pause);
    var n := |segs|;
    if |segs[n - 1]| == 1 {
      if n == 1 {
        UniqueOfOne(segs, ws, pause);
      } else {
        DropLastSegment(segs, ws, pause);
        PauseSplitUnique(segs[..n - 1], ws[..|ws| - 1], pause);
        UniqueAfterDropSegment(segs, ws, pause);
      }
    } else {
      var last := segs[n - 1];
      DropLastWord(segs, ws, pause);
      PauseSplitUnique(segs[..n - 1] + [last[..|last| - 1]], ws[..|ws| - 1], pause);
      UniqueAfterDropWord(segs, ws, pause);
    }
  }

  lemma SplitOfNonEmpty(segs: seq<Segment>, ws: seq<Word>, pause: real)
    requires ws != [] && IsPauseSplitOf(segs, ws, pause)
    ensures segs != [] && segs[|segs| - 1] != []
  {
  }

  lemma UniqueOfOne(segs: seq<Segment>, ws: seq<Word>, pause: real)
    requires IsPauseSplitOf(segs, ws, pause) && |segs| == 1 && |segs[0]| == 1
    ensures ws != [] && segs == PauseSplit(ws, pause)
  {
    assert segs == [segs[0]];
    FlattenSingle(segs[0]);
    assert ws == segs[0] && |ws| == 1;
    assert segs[0] == [ws[0]];
  }

  lemma UniqueAfterDropSegment(segs: seq<Segment>, ws: seq<Word>, pause: real)
    requires IsPauseSplitOf(segs, ws, pause) && |segs| > 1 && |segs[|segs| - 1]| == 1 && |ws| > 1
    requires segs[..|segs| - 1] == PauseSplit(ws[..|ws| - 1], pause)
    ensures segs == PauseSplit(ws, pause)
  {
    var n := |segs|;
    var front := segs[..n - 1];
    var last := segs[n - 1];
    var init := ws[..|ws| - 1];
    LastSplit(segs);
    FlattenSnoc(front, last);
    LastSplit(ws);
    OneWordTail(Flatten(front), last, ws);
    assert BreakBefore(segs, n - 1, pause);
    assert Last(segs[n - 2]) == ws[|ws| - 2] by {
      assert Last(PauseSplit(init, pause)[|front| - 1]) == init[|init| - 1];
    }
  }

  lemma OneWordTail(a: seq<Word>, last: Segment, ws: seq<Word>)
    requires ws == a + last && |last| == 1
    ensures last == [ws[|ws| - 1]] && ws[..|ws| - 1] == a
  {
  }

  lemma UniqueAfterDropWord(segs: seq<Segment>, ws: seq<Word>, pause: real)
    requires IsPauseSplitOf(segs, ws, pause) && segs != [] && |segs[|segs| - 1]| > 1 && |ws| > 1
    requires var last := segs[|segs| - 1];
             segs[..|segs| - 1] + [last[..|last| - 1]] == PauseSplit(ws[..|ws| - 1], pause)
    ensures segs == PauseSplit(ws, pause)
  {
    var n := |segs|;
    var front := segs[..n - 1];
    var last := segs[n - 1];
    var body := last[..|last| - 1];
    var fewer := front + [body];
    var init := ws[..|ws| - 1];
    LastSplit(segs);
    FlattenSnoc(front, last);
    LastWordOf(Flatten(front), last);
    assert NoBreakInside(last, pause);
    assert !Breaks(last[|last| - 2], last[|last| - 1], pause);
    SnocParts(front, body);
    LastSplit(ws);
    assert last[|last| - 2] == ws[|ws| - 2] by {
      assert Last(PauseSplit(init, pause)[|fewer| - 1]) == init[|init| - 1];
      assert Last(body) == last[|last| - 2];
    }
    LastSplit(last);
  }

  lemma LastWordOf(a: seq<Word>, b: seq<Word>)
    requires b != []
    ensures (a + b)[|a + b| - 1] == b[|b| - 1]
  {
  }

  /** A one-word last segment: what is left is the pause split of all but the last word. */
  lemma DropLastSegment(segs: seq<Segment>, ws: seq<Word>, pause: real)
    requires IsPauseSplitOf(segs, ws, pause) && |segs| > 1 && |segs[|segs| - 1]| == 1
    ensures ws != [] && |ws| > 1 && IsPauseSplitOf(segs[..|segs| - 1], ws[..|ws| - 1], pause)
  {
    var n := |segs|;
    var front := segs[..n - 1];
    var last := segs[n - 1];
    assert segs == front + [last];
    FlattenSnoc(front, last);
    assert front[n - 2] != [];
    FlattenNonEmpty(front, n - 2);
    assert ws[..|ws| - 1] == Flatten(front);
    forall i | 0 <= i < |front| ensures front[i] != [] && NoBreakInside(front[i], pause) {
      assert front[i] == segs[i];
    }
    forall i | 0 < i < |front| ensures BreakBefore(front, i, pause) {
      assert BreakBefore(segs, i, pause);
      assert front[i - 1] == segs[i - 1] && front[i] == segs[i];
    }
  }

  /** A longer last segment: dropping its last word leaves the pause split of all but the last word. */
  lemma DropLastWord(segs: seq<Segment>, ws: seq<Word>, pause: real)
    requires IsPauseSplitOf(segs, ws, pause) && segs != [] && |segs[|segs| - 1]| > 1
    ensures var last := segs[|segs| - 1];
            |ws| > 1 && IsPauseSplitOf(segs[..|segs| - 1] + [last[..|last| - 1]], ws[..|ws| - 1], pause)
  {
    LastSplit(segs);
    DropWordFlatten(segs[..|segs| - 1], segs[|segs| - 1], ws);
    DropWordInside(segs, pause);
    DropWordBetween(segs, pause);
  }

  lemma DropWordFlatten(front: seq<Segment>, last: Segment, ws: seq<Word>)
    requires Flatten(front + [last]) == ws && |last| > 1
    ensures |ws| > 1 && Flatten(front + [last[..|last| - 1]]) == ws[..|ws| - 1]
  {
    var body := last[..|last| - 1];
    var x := last[|last| - 1];
    LastSplit(last);
    FlattenSnoc(front, last);
    FlattenSnoc(front, body);
    AppendAssoc(Flatten(front), body, [x]);
    SnocParts(Flatten(front) + body, x);
  }

  lemma DropWordInside(segs: seq<Segment>, pause: real)
    requires segs != [] && |segs[|segs| - 1]| > 1
    requires forall i :: 0 <= i < |segs| ==> segs[i] != [] && NoBreakInside(segs[i], pause)
    ensures var last := segs[|segs| - 1];
            var fewer := segs[..|segs| - 1] + [last[..|last| - 1]];
            forall i :: 0 <= i < |fewer| ==> fewer[i] != [] && NoBreakInside(fewer[i], pause)
  {
    var n := |segs|;
    var last := segs[n - 1];
    var body := last[..|last| - 1];
    var fewer := segs[..n - 1] + [body];
    assert NoBreakInside(last, pause);
    forall i | 0 <= i < |fewer| ensures fewer[i] != [] && NoBreakInside(fewer[i], pause) {
      if i < n - 1 {
        assert fewer[i] == segs[i];
      } else {
        forall k | 0 < k < |body| ensures !Breaks(body[k - 1], body[k], pause) {
          assert body[k - 1] == last[k - 1] && body[k] == last[k];
        }
      }
    }
  }

  lemma DropWordBetween(segs: seq<Segment>, pause: real)
    requires segs != [] && |segs[|segs| - 1]| > 1 && BreaksBetween(segs, pause)
    ensures var last := segs[|segs| - 1];
            BreaksBetween(segs[..|segs| - 1] + [last[..|last| - 1]], pause)
  {
    var n := |segs|;
    var last := segs[n - 1];
    var fewer := segs[..n - 1] + [last[..|last| - 1]];
    forall i | 0 < i < |fewer| ensures BreakBefore(fewer, i, pause) {
      assert BreakBefore(segs, i, pause);
      assert fewer[i - 1] == segs[i - 1];
      if i < n - 1 {
        assert fewer[i] == segs[i];
      } else {
        assert fewer[i][0] == last[0];
      }
    }
  }

  lemma {:induction false} FlattenNonEmpty(segs: seq<Segment>, i: nat)
    requires i < |segs| && segs[i] != []
    ensures Flatten(segs) != []
    decreases i
  {
    if i > 0 {
      FlattenNonEmpty(segs[1..], i - 1);
    }
  }

  /** Inside a segment that never breaks every word has the first word's speaker. */
  lemma {:induction false} NoBreakIsSingleSpeaker(seg: Segment, pause: real)
    requires NoBreakInside(seg, pause)
    ensures SingleSpeaker(seg)
    decreases |seg|
  {
    if |seg| > 1 {
      var init := seg[..|seg| - 1];
      assert NoBreakInside(init, pause) by {
        forall k | 0 < k < |init| ensures !Breaks(init[k - 1], init[k], pause) {
          assert init[k - 1] == seg[k - 1] && init[k] == seg[k];
        }
      }
      NoBreakIsSingleSpeaker(init, pause);
      assert !Breaks(seg[|seg| - 2], seg[|seg| - 1], pause);
      forall i | 0 <= i < |seg| ensures seg[i].speakerId == seg[0].speakerId {
        if i < |seg| - 1 { assert seg[i] == init[i]; }
      }
    }
  }

  // ----- initial_grouping -----

  /**
   * `initial_grouping` returns `[]` exactly for no words; otherwise its segments are
   * non-empty and together are the words, in order.
   */
  lemma GroupWordsConserves(ws: seq<Word>, pause: real, minWords: int)
    ensures var r := GroupWords(ws, pause, minWords);
            Flatten(r) == ws && AllNonEmpty(r) && (r == [] <==> ws == [])
  {
    if ws != [] {
      PauseSplitConserves(ws, pause);
      TailMergeConserves(PauseSplit(ws, pause), minWords);
    }
  }

  /** The tail merge keeps the words, in order, and keeps segments non-empty. */
  lemma TailMergeConserves(segs: seq<Segment>, minWords: int)
    requires segs != [] && AllNonEmpty(segs)
    ensures var r := TailMerge(segs, minWords);
            Flatten(r) == Flatten(segs) && AllNonEmpty(r) && r != []
  {
    if |segs| > 1 && |segs[|segs| - 1]| < minWords {
      var n := |segs|;
      var front := segs[..n - 2];
      assert segs == front + [segs[n - 2]] + [segs[n - 1]];
      FlattenGlue(front, segs[n - 2], segs[n - 1]);
    }
  }

  /** Gluing the last two segments together changes nothing in the flattened words. */
  lemma FlattenGlue(front: seq<Segment>, a: Segment, b: Segment)
    ensures Flatten(front + [a + b]) == Flatten(front + [a] + [b])
  {
    FlattenAppend(front + [a], [b]);
    FlattenAppend(front, [a]);
    FlattenAppend(front, [a + b]);
    FlattenSingle(a);
    FlattenSingle(b);
    FlattenSingle(a + b);
  }

  /** The tail merge fires exactly when the last segment is too short and is not the only one. */
  lemma TailMergeFires(segs: seq<Segment>, minWords: int)
    ensures var r := TailMerge(segs, minWords);
            (|r| == |segs| - 1 <==> |segs| > 1 && |segs[|segs| - 1]| < minWords)
            && (|r| != |segs| - 1 ==> r == segs)
  {
  }

  /**
   * Every segment but the last is one pause group, so it has a single speaker; the
   * last may hold two groups.
   */
  lemma GroupWordsSpeakers(ws: seq<Word>, pause: real, minWords: int)
    ensures var r := GroupWords(ws, pause, minWords);
            forall i :: 0 <= i < |r| - 1 ==> SingleSpeaker(r[i])
  {
    if ws != [] {
      var segs := PauseSplit(ws, pause);
      var r := GroupWords(ws, pause, minWords);
      PauseSplitBoundaries(ws, pause);
      forall i | 0 <= i < |r| - 1 ensures SingleSpeaker(r[i]) {
        assert r[i] == segs[i];
        NoBreakIsSingleSpeaker(segs[i], pause);
      }
    }
  }

  /** With a minimum of at most one word the result is exactly the pause split, so EVERY segment has one speaker. */
  lemma GroupWordsSpeakersWithoutMerge(ws: seq<Word>, pause: real, minWords: int)
    requires minWords <= 1
    ensures var r := GroupWords(ws, pause, minWords);
            forall i :: 0 <= i < |r| ==> SingleSpeaker(r[i])
  {
    if ws != [] {
      var segs := PauseSplit(ws, pause);
      PauseSplitBoundaries(ws, pause);
      forall i | 0 <= i < |segs| ensures SingleSpeaker(segs[i]) {
        NoBreakIsSingleSpeaker(segs[i], pause);
      }
    }
  }
}
