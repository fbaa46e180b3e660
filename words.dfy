/**
 * The aligner's data model: a word record `{text, start, end, speaker_id}` and a
 * segment, an ordered list of words. The stages regroup words and never change them.
 */
module Words {
  import opened PyStr

  /** One recognised word; times are seconds, only ever subtracted and compared. */
  datatype Word = Word(text: string, start: real, end: real, speakerId: string)

  type Segment = seq<Word>

  /** All words of a segment list, in order. */
  function Flatten(segs: seq<Segment>): seq<Word>
    decreases |segs|
  {
    if segs == [] then [] else segs[0] + Flatten(segs[1..])
  }

  lemma {:induction false} FlattenAppend(a: seq<Segment>, b: seq<Segment>)
    ensures Flatten(a + b) == Flatten(a) + Flatten(b)
    decreases |a|
  {
    if a == [] {
      assert a + b == b;
    } else {
      assert (a + b)[0] == a[0] && (a + b)[1..] == a[1..] + b;
      FlattenAppend(a[1..], b);
    }
  }

  lemma FlattenSingle(s: Segment)
    ensures Flatten([s]) == s
  {
    assert [s][1..] == [];
  }

  lemma FlattenSnoc(segs: seq<Segment>, s: Segment)
    ensures Flatten(segs + [s]) == Flatten(segs) + s
  {
    FlattenAppend(segs, [s]);
    FlattenSingle(s);
  }

  predicate AllNonEmpty(segs: seq<Segment>) {
    forall i :: 0 <= i < |segs| ==> segs[i] != []
  }

  /** Non-empty segments never outnumber their words. */
  lemma {:induction false} FlattenLength(segs: seq<Segment>)
    requires AllNonEmpty(segs)
    ensures |segs| <= |Flatten(segs)|
    decreases |segs|
  {
    if segs != [] {
      assert AllNonEmpty(segs[1..]) by {
        forall p | 0 <= p < |segs[1..]| ensures segs[1..][p] != [] {
          assert segs[1..][p] == segs[p + 1];
        }
      }
      FlattenLength(segs[1..]);
    }
  }

  /** Every word of the segment has the speaker of its first word. */
  predicate SingleSpeaker(seg: Segment) {
    forall i :: 0 <= i < |seg| ==> seg[i].speakerId == seg[0].speakerId
  }

  /** `[w["text"] for w in ws]`. */
  function Texts(ws: Segment): (r: seq<string>)
    ensures |r| == |ws| && forall i :: 0 <= i < |ws| ==> r[i] == ws[i].text
  {
    seq(|ws|, i requires 0 <= i < |ws| => ws[i].text)
  }

  /** `" ".join(w["text"] for w in ws)`: what the tokenizer is given and what a result record shows. */
  function SpaceJoined(ws: Segment): string {
    Join(" ", Texts(ws))
  }

  /**
   * One step of the running text built while walking words (aligner.py:150-152 and
   * 215-217): a space goes in first unless the text so far is empty or the new word's
   * text is a substring of `string.punctuation`.
   */
  function AccStep(current: string, t: string): string {
    (if current != "" && !InPunctuation(t) then current + " " else current) + t
  }

  /** The running text after the words `ws`, starting from `""`. */
  function Accumulated(ws: Segment): string
    decreases |ws|
  {
    if ws == [] then "" else AccStep(Accumulated(ws[..|ws| - 1]), ws[|ws| - 1].text)
  }

  lemma AccumulatedSnoc(ws: Segment, w: Word)
    ensures Accumulated(ws + [w]) == AccStep(Accumulated(ws), w.text)
  {
    assert (ws + [w])[..|ws|] == ws;
  }

  lemma {:induction false} JoinSnoc(sep: string, parts: seq<string>, p: string)
    requires parts != []
    ensures Join(sep, parts + [p]) == Join(sep, parts) + sep + p
    decreases |parts|
  {
    if |parts| == 1 {
      assert (parts + [p])[1..] == [p];
    } else {
      assert (parts + [p])[1..] == parts[1..] + [p];
      JoinSnoc(sep, parts[1..], p);
    }
  }

  /** A word text that makes the two joins agree: non-empty and not a piece of `string.punctuation`. */
  predicate PlainText(t: string) {
    t != "" && !InPunctuation(t)
  }

  /**
   * The punctuation-aware running text and the tokenizer's space-joined text coincide
   * when no word text is empty or a piece of `string.punctuation`.
   */
  lemma {:induction false} AccumulatedIsSpaceJoined(ws: Segment)
    requires forall i :: 0 <= i < |ws| ==> PlainText(ws[i].text)
    ensures Accumulated(ws) == SpaceJoined(ws)
    decreases |ws|
  {
    if ws != [] {
      var init := ws[..|ws| - 1];
      LastSplit(ws);
      AccumulatedIsSpaceJoined(init);
      SpaceJoinedSnoc(init, ws[|ws| - 1]);
    }
  }

  /** One more plain word keeps the two joins equal. */
  lemma SpaceJoinedSnoc(init: Segment, w: Word)
    requires Accumulated(init) == SpaceJoined(init)
    requires PlainText(w.text) && (init != [] ==> init[|init| - 1].text != "")
    ensures Accumulated(init + [w]) == SpaceJoined(init + [w])
  {
    AccumulatedSnoc(init, w);
    TextsSnoc(init, w);
    if init == [] {
      assert Texts(init) + [w.text] == [w.text];
    } else {
      JoinSnoc(" ", Texts(init), w.text);
      AccumulatedNonEmpty(init);
    }
  }

  lemma TextsSnoc(ws: Segment, w: Word)
    ensures Texts(ws + [w]) == Texts(ws) + [w.text]
  {
  }

  lemma AccumulatedNonEmpty(ws: Segment)
    requires ws != [] && ws[|ws| - 1].text != ""
    ensures Accumulated(ws) != ""
  {
    var t := ws[|ws| - 1].text;
    assert Accumulated(ws)[|Accumulated(ws)| - |t|..] == t;
  }

  /** The two joins differ as soon as a word is punctuation: `Hello` `!` gives `Hello!` and `Hello !`. */
  lemma JoinsDiffer()
    ensures var ws := [Word("Hello", 0.0, 0.5, "A"), Word("!", 0.5, 0.6, "A")];
            Accumulated(ws) == "Hello!" && SpaceJoined(ws) == "Hello !"
  {
    var ws := [Word("Hello", 0.0, 0.5, "A"), Word("!", 0.5, 0.6, "A")];
    assert Punctuation[0..1] == "!";
    assert ws[..1] == [ws[0]];
    assert ws[..0] == [];
    assert Texts(ws) == ["Hello", "!"];
  }
}
