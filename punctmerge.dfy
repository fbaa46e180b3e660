/**
 * `merge_punctuation_only_segments` (aligner.py:233-256): a segment whose concatenated
 * text consists only of `string.punctuation` characters (an empty text included) is
 * appended to the previous output segment; when there is none it is kept as it is.
 */
module PunctMerge {
  import opened PyStr
  import opened Words

  /** `all(ch in string.punctuation for ch in "".join(w["text"] for w in seg))`. */
  predicate PunctuationOnly(seg: Segment) {
    AllPunctuation(Concat(Texts(seg)))
  }

  /** What the loop has built after the segments `segs`. */
  function Absorb(segs: seq<Segment>): seq<Segment>
    decreases |segs|
  {
    if segs == [] then []
    else
      var cleaned := Absorb(segs[..|segs| - 1]);
      var seg := segs[|segs| - 1];
      if PunctuationOnly(seg) && cleaned != [] then
        cleaned[..|cleaned| - 1] + [cleaned[|cleaned| - 1] + seg]
      else cleaned + [seg]
  }

  method MergePunctuationOnlySegments(segments: seq<Segment>) returns (cleaned: seq<Segment>)
    ensures cleaned == Absorb(segments)
  {
    cleaned := [];
    var i := 0;
    while i < |segments|
      invariant 0 <= i <= |segments|
      invariant cleaned == Absorb(segments[..i])
    {
      var seg := segments[i];
      var text := Concat(Texts(seg));
      var punct := AllPunctuation(text);
      AbsorbStep(segments, i, cleaned, punct);
      if punct {
        if cleaned != [] {
          cleaned := cleaned[..|cleaned| - 1] + [cleaned[|cleaned| - 1] + seg];
        } else {
          // the edge case: nothing to attach to
          cleaned := cleaned + [seg];
        }
      } else {
        cleaned := cleaned + [seg];
      }
      i := i + 1;
    }
    assert segments[..i] == segments;
  }

  /** One iteration of the loop: a punctuation-only segment joins the last one, any other is appended. */
  lemma AbsorbStep(segments: seq<Segment>, i: nat, cleaned: seq<Segment>, punct: bool)
    requires i < |segments| && cleaned == Absorb(segments[..i])
    requires punct == PunctuationOnly(segments[i])
    ensures punct && cleaned != [] ==>
              cleaned[..|cleaned| - 1] + [cleaned[|cleaned| - 1] + segments[i]] == Absorb(segments[..i + 1])
    ensures !(punct && cleaned != []) ==> cleaned + [segments[i]] == Absorb(segments[..i + 1])
  {
    SliceSnoc(segments, i);
    SnocParts(segments[..i], segments[i]);
  }

  // ----- properties -----

  lemma AllPunctuationAppend(a: string, b: string)
    ensures AllPunctuation(a + b) <==> AllPunctuation(a) && AllPunctuation(b)
  {
    if AllPunctuation(a) && AllPunctuation(b) {
      forall k | 0 <= k < |a + b| ensures (a + b)[k] in Punctuation {
        if k >= |a| {
          assert (a + b)[k] == b[k - |a|];
        }
      }
    }
    if AllPunctuation(a + b) {
      forall k | 0 <= k < |b| ensures b[k] in Punctuation {
        assert (a + b)[|a| + k] == b[k];
      }
      forall k | 0 <= k < |a| ensures a[k] in Punctuation {
        assert (a + b)[k] == a[k];
      }
    }
  }

  /** Two segments together are punctuation only exactly when each of them is. */
  lemma PunctuationOnlyAppend(a: Segment, b: Segment)
    ensures PunctuationOnly(a + b) <==> PunctuationOnly(a) && PunctuationOnly(b)
  {
    assert Texts(a + b) == Texts(a) + Texts(b);
    ConcatAppend(Texts(a), Texts(b));
    AllPunctuationAppend(Concat(Texts(a)), Concat(Texts(b)));
  }

  /** No word is lost, duplicated or reordered. */
  lemma {:induction false} AbsorbConserves(segs: seq<Segment>)
    ensures Flatten(Absorb(segs)) == Flatten(segs)
    decreases |segs|
  {
    if segs != [] {
      var front := segs[..|segs| - 1];
      var seg := segs[|segs| - 1];
      var cleaned := Absorb(front);
      AbsorbConserves(front);
      LastSplit(segs);
      FlattenSnoc(front, seg);
      if PunctuationOnly(seg) && cleaned != [] {
        FlattenJoinLast(cleaned, seg);
      } else {
        FlattenSnoc(cleaned, seg);
      }
    }
  }

  /** Gluing `seg` onto the last segment puts its words at the end. */
  lemma FlattenJoinLast(segs: seq<Segment>, seg: Segment)
    requires segs != []
    ensures Flatten(segs[..|segs| - 1] + [segs[|segs| - 1] + seg]) == Flatten(segs) + seg
  {
    var init := segs[..|segs| - 1];
    var last := segs[|segs| - 1];
    LastSplit(segs);
    FlattenSnoc(init, last);
    FlattenSnoc(init, last + seg);
    AppendAssoc(Flatten(init), last, seg);
  }

  /** `Absorb` never makes an output segment empty, nor more segments than it was given. */
  lemma {:induction false} AbsorbShape(segs: seq<Segment>)
    ensures |Absorb(segs)| <= |segs|
    ensures AllNonEmpty(segs) ==> AllNonEmpty(Absorb(segs))
    ensures (Absorb(segs) == []) <==> (segs == [])
    decreases |segs|
  {
    if segs != [] {
      var front := segs[..|segs| - 1];
      AbsorbShape(front);
      if AllNonEmpty(segs) {
        assert AllNonEmpty(front) by {
          forall p | 0 <= p < |front| ensures front[p] != [] {
            assert front[p] == segs[p];
          }
        }
      }
    }
  }

  /** Every segment after the first has some text that is not punctuation. */
  predicate CleanAfterFirst(segs: seq<Segment>) {
    forall p :: 1 <= p < |segs| ==> !PunctuationOnly(segs[p])
  }

  /** Every output segment after the first has some text that is not punctuation. */
  lemma {:induction false} AbsorbClean(segs: seq<Segment>)
    ensures CleanAfterFirst(Absorb(segs))
    decreases |segs|
  {
    if segs != [] {
      var front := segs[..|segs| - 1];
      var seg := segs[|segs| - 1];
      var cleaned := Absorb(front);
      AbsorbClean(front);
      if PunctuationOnly(seg) && cleaned != [] {
        var last := cleaned[|cleaned| - 1];
        PunctuationOnlyAppend(last, seg);
        var r := cleaned[..|cleaned| - 1] + [last + seg];
        assert Absorb(segs) == r;
        forall p | 1 <= p < |r| ensures !PunctuationOnly(r[p]) {
          if p < |cleaned| - 1 {
            assert r[p] == cleaned[p];
          } else {
            assert !PunctuationOnly(cleaned[p]);
            assert r[p] == last + seg;
          }
        }
      } else {
        var r := cleaned + [seg];
        assert Absorb(segs) == r;
        forall p | 1 <= p < |r| ensures !PunctuationOnly(r[p]) {
          if p < |cleaned| {
            assert r[p] == cleaned[p];
          } else {
            assert r[p] == seg && cleaned != [];
          }
        }
      }
    }
  }

  /** A segmentation whose segments after the first are not punctuation only is left as it is. */
  lemma {:induction false} AbsorbOfClean(segs: seq<Segment>)
    requires CleanAfterFirst(segs)
    ensures Absorb(segs) == segs
    decreases |segs|
  {
    if segs != [] {
      var front := segs[..|segs| - 1];
      assert CleanAfterFirst(front) by {
        forall p | 1 <= p < |front| ensures !PunctuationOnly(front[p]) {
          assert front[p] == segs[p];
        }
      }
      AbsorbOfClean(front);
      assert segs == front + [segs[|segs| - 1]];
    }
  }

  /** Applying the stage twice is the same as applying it once. */
  lemma AbsorbIdempotent(segs: seq<Segment>)
    ensures Absorb(Absorb(segs)) == Absorb(segs)
  {
    AbsorbClean(segs);
    AbsorbOfClean(Absorb(segs));
  }
}
