/**
 * subtitle_filters.py: `contains_meaningful_words`, which strips speaker tags, bracketed and
 * parenthesised asides and HTML tags from a text and then looks for a word with an ASCII
 * letter or digit, and `filter_aligner_segments`, which keeps the segments whose text passes.
 */
module SubtitleFilters {
  import opened Wrappers
  import opened PyStr
  import opened JsonData
  import opened Selection
  import opened TextCleaning

  // ----- the tag substitutions, subtitle_filters.py:38-43 -----

  /** The four patterns removed, in the order they are applied. */
  datatype TagPattern =
    /** `-\s*\[[^\]]+\]\s*`: a dash, then a speaker tag. */
    | DashBracket
    /** `\[[^\]]+\]\s*`. */
    | Bracket
    /** `\([^)]*\)`. */
    | Paren
    /** `<[^>]*>`. */
    | Angle

  /** The character every match of the pattern contains. */
  function Opener(p: TagPattern): char {
    match p
    case DashBracket => '['
    case Bracket => '['
    case Paren => '('
    case Angle => '<'
  }

  /** The whitespace run `\s*` at the start of `s`, greedy. */
  function SpaceRun(s: string): (n: nat)
    ensures n <= |s| && AllSpace(s[..n]) && (n == |s| || !IsSpace(s[n]))
  {
    |s| - |LStrip(s)|
  }

  /** `\[[^\]]+\]` at the start of `s`: up to the first `]`, with something before it; 0 for no match. */
  function BracketLen(s: string): (n: nat)
    ensures n <= |s|
    ensures n > 0 ==> 3 <= n && s[0] == '[' && s[n - 1] == ']' && ']' !in s[1..n - 1]
  {
    if |s| >= 2 && s[0] == '[' && s[1] != ']' && ']' in s[1..] then
      var k := IndexOf(s[1..], ']');
      assert s[1..][..k] == s[1..k + 1];
      k + 2
    else 0
  }

  /** `c[^d]*d` at the start of `s`: up to the first `d` after the `c`; 0 for no match. */
  function EnclosedLen(s: string, c: char, d: char): (n: nat)
    ensures n <= |s|
    ensures n > 0 ==> 2 <= n && s[0] == c && s[n - 1] == d && d !in s[1..n - 1]
  {
    if s != [] && s[0] == c && d in s[1..] then
      var k := IndexOf(s[1..], d);
      assert s[1..][..k] == s[1..k + 1];
      k + 2
    else 0
  }

  /** The length of the match of `p` at the start of `s`, or 0 when there is none (no pattern matches the empty string). */
  function MatchLen(p: TagPattern, s: string): (n: nat)
    ensures n <= |s|
  {
    match p
    case DashBracket =>
      if s != [] && s[0] == '-' then
        var afterDash := LStrip(s[1..]);
        var b := BracketLen(afterDash);
        if b > 0 then 1 + SpaceRun(s[1..]) + b + SpaceRun(afterDash[b..]) else 0
      else 0
    case Bracket =>
      var b := BracketLen(s);
      if b > 0 then b + SpaceRun(s[b..]) else 0
    case Paren => EnclosedLen(s, '(', ')')
    case Angle => EnclosedLen(s, '<', '>')
  }

  /** Every match holds the pattern's opening character. */
  lemma MatchHasOpener(p: TagPattern, s: string)
    requires MatchLen(p, s) > 0
    ensures Opener(p) in s
  {
    if p.DashBracket? {
      var afterDash := LStrip(s[1..]);
      assert afterDash[0] == '[';
      assert afterDash[0] == s[1..][|s[1..]| - |afterDash|];
    } else if p.Bracket? {
      assert s[0] == '[';
    }
  }

  /** `re.sub(pattern, "", s)`: the scan removes each match and resumes after it. */
  function RemoveAll(p: TagPattern, s: string): string
    decreases |s|
  {
    if s == [] then []
    else if MatchLen(p, s) > 0 then RemoveAll(p, s[MatchLen(p, s)..])
    else [s[0]] + RemoveAll(p, s[1..])
  }

  /** The cleaned text of subtitle_filters.py:38-43. */
  function StripTags(text: string): string {
    RemoveAll(Angle, RemoveAll(Paren, RemoveAll(Bracket, RemoveAll(DashBracket, text))))
  }

  // ----- the word test and the filler patterns, subtitle_filters.py:47-69 -----

  predicate HasAsciiAlnum(s: string) {
    exists i :: 0 <= i < |s| && IsAsciiAlnum(s[i])
  }

  /**
   * `re.findall(r"\b\w*[a-zA-Z0-9]\w*\b", t)` is non-empty exactly when `t` has an ASCII
   * letter or digit (the whole word-character run around one is a match), and every match
   * holds one, so no match is whitespace: `meaningful_words` is non-empty exactly then.
   */
  predicate HasMeaningfulWord(t: string) {
    HasAsciiAlnum(t)
  }

  predicate AllOf(s: string, c: char) { forall i :: 0 <= i < |s| ==> s[i] == c }
  predicate AllIn(s: string, cs: string) { forall i :: 0 <= i < |s| ==> s[i] in cs }
  predicate AllSymbols(s: string) { forall i :: 0 <= i < |s| ==> !IsWordChar(s[i]) && !IsSpace(s[i]) }

  /** `re.match` of one of the six filler patterns on a stripped text: each needs one character or more. */
  predicate IsFiller(t: string) {
    t != [] && (AllOf(t, '.') || AllOf(t, '-') || AllOf(t, '*') || AllOf(t, '_') || AllIn(t, ",.;:!?") || AllSymbols(t))
  }

  /** The checks of subtitle_filters.py:47-71 on the tag-stripped text. */
  predicate MeaningfulAfterTags(cleaned: string) {
    if !HasMeaningfulWord(cleaned) then false
    else if IsFiller(Strip(Lower(cleaned))) then false
    else true
  }

  /** `contains_meaningful_words(text)`. */
  function ContainsMeaningfulWords(text: Json): (r: bool)
    ensures r ==> text.JStr? && text.s != ""
  {
    Truthy(text) && text.JStr? && MeaningfulAfterTags(StripTags(text.s))
  }

  // ----- properties of contains_meaningful_words -----

  /** A substitution only deletes: every character left was there before. */
  lemma {:induction false} RemoveAllDeletes(p: TagPattern, s: string)
    ensures |RemoveAll(p, s)| <= |s|
    ensures forall c :: c in RemoveAll(p, s) ==> c in s
    decreases |s|
  {
    if s != [] {
      if MatchLen(p, s) > 0 {
        RemoveAllDeletes(p, s[MatchLen(p, s)..]);
        assert forall c :: c in s[MatchLen(p, s)..] ==> c in s;
      } else {
        RemoveAllDeletes(p, s[1..]);
        assert forall c :: c in s[1..] ==> c in s;
      }
    }
  }

  /** Text without the pattern's opening character is left as it is. */
  lemma {:induction false} RemoveAllWithoutOpener(p: TagPattern, s: string)
    requires Opener(p) !in s
    ensures RemoveAll(p, s) == s
    decreases |s|
  {
    if s != [] {
      if MatchLen(p, s) > 0 {
        MatchHasOpener(p, s);
        assert false;
      }
      assert Opener(p) !in s[1..];
      RemoveAllWithoutOpener(p, s[1..]);
      assert s == [s[0]] + s[1..];
    }
  }

  lemma StripTagsDeletes(s: string)
    ensures forall c :: c in StripTags(s) ==> c in s
  {
    RemoveAllDeletes(DashBracket, s);
    var a := RemoveAll(DashBracket, s);
    RemoveAllDeletes(Bracket, a);
    var b := RemoveAll(Bracket, a);
    RemoveAllDeletes(Paren, b);
    RemoveAllDeletes(Angle, RemoveAll(Paren, b));
  }

  lemma InStrip(s: string, c: char)
    requires c in s && !IsSpace(c)
    ensures c in Strip(s)
  {
    InNonSpace(s, c);
    StripNonSpace(s);
    InNonSpace(Strip(s), c);
  }

  /** One ASCII letter or digit is enough to fail every filler pattern. */
  lemma AlnumFailsFillers(t: string, j: nat)
    requires j < |t| && IsAsciiAlnum(t[j])
    ensures !IsFiller(t)
  {
    var c := t[j];
    assert c != '.' && c != '-' && c != '*' && c != '_' && IsWordChar(c);
    assert c !in ",.;:!?" by {
      var marks := ",.;:!?";
      assert forall k :: 0 <= k < |marks| ==> !IsAsciiAlnum(marks[k]);
    }
  }

  /** With an ASCII letter or digit present, no filler pattern matches. */
  lemma AlnumIsNotFiller(cleaned: string)
    requires HasAsciiAlnum(cleaned)
    ensures !IsFiller(Strip(Lower(cleaned)))
  {
    var i :| 0 <= i < |cleaned| && IsAsciiAlnum(cleaned[i]);
    var lowered := Lower(cleaned);
    var c := lowered[i];
    assert IsAsciiAlnum(c) && !IsSpace(c);
    InStrip(lowered, c);
    var t := Strip(lowered);
    var j :| 0 <= j < |t| && t[j] == c;
    AlnumFailsFillers(t, j);
  }

  /** After the tags are gone, the test is exactly whether an ASCII letter or digit is left. */
  lemma MeaningfulAfterTagsIffAlnum(cleaned: string)
    ensures MeaningfulAfterTags(cleaned) <==> HasAsciiAlnum(cleaned)
  {
    if HasAsciiAlnum(cleaned) {
      AlnumIsNotFiller(cleaned);
    }
  }

  lemma {:induction false} StripTagsKeepsAlnum(s: string)
    requires HasAsciiAlnum(StripTags(s))
    ensures s != []
  {
    var t := StripTags(s);
    StripTagsDeletes(s);
    var i :| 0 <= i < |t| && IsAsciiAlnum(t[i]);
    assert t[i] in s;
  }

  /**
   * The result is true exactly for a string that still has an ASCII letter or digit once its
   * tags are stripped: the filler patterns can never reject such a text.
   */
  lemma MeaningfulIffAlnumAfterTags(s: string)
    ensures ContainsMeaningfulWords(JStr(s)) <==> HasAsciiAlnum(StripTags(s))
  {
    var t := StripTags(s);
    MeaningfulAfterTagsIffAlnum(t);
    if HasAsciiAlnum(t) {
      StripTagsKeepsAlnum(s);
      assert MeaningfulAfterTags(t) && Truthy(JStr(s));
      assert ContainsMeaningfulWords(JStr(s));
    } else {
      assert !MeaningfulAfterTags(t);
      assert !ContainsMeaningfulWords(JStr(s));
    }
  }

  /** So a text with no ASCII letter or digit anywhere is never meaningful. */
  lemma WithoutAlnumNotMeaningful(s: string)
    requires !HasAsciiAlnum(s)
    ensures !ContainsMeaningfulWords(JStr(s))
  {
    StripTagsDeletes(s);
    var t := StripTags(s);
    forall i | 0 <= i < |t| ensures !IsAsciiAlnum(t[i]) {
      assert t[i] in s;
    }
    MeaningfulIffAlnumAfterTags(s);
  }

  lemma RemoveWhole(p: TagPattern, s: string)
    requires s != [] && MatchLen(p, s) == |s|
    ensures RemoveAll(p, s) == []
  {
    assert s[MatchLen(p, s)..] == [];
  }

  /** The later passes find nothing left to remove. */
  lemma StripTagsOfNothing()
    ensures forall p :: RemoveAll(p, []) == []
  {
  }

  /** `[inner]` at the start of `s`, with something inside and no `]` in it, is one bracket match. */
  lemma BracketAtStart(inner: string, rest: string)
    requires inner != [] && ']' !in inner
    ensures BracketLen("[" + inner + "]" + rest) == |inner| + 2
  {
    var s := "[" + inner + "]" + rest;
    assert s[1..] == inner + "]" + rest;
    assert s[1] == inner[0];
    IndexOfAfter(inner, ']', rest);
  }

  /** Text whose tags leave nothing is not meaningful. */
  lemma NothingLeft(s: string)
    requires StripTags(s) == []
    ensures !ContainsMeaningfulWords(JStr(s))
  {
    MeaningfulIffAlnumAfterTags(s);
  }

  /** When the first passes leave `s` as it is and the next one removes all of it, nothing is left. */
  lemma RemovedBy(p: TagPattern, s: string)
    requires s != [] && MatchLen(p, s) == |s|
    requires p != DashBracket ==> RemoveAll(DashBracket, s) == s
    requires p == Paren || p == Angle ==> RemoveAll(Bracket, s) == s
    requires p == Angle ==> RemoveAll(Paren, s) == s
    ensures StripTags(s) == []
  {
    RemoveWhole(p, s);
    StripTagsOfNothing();
  }

  lemma BracketWhole(inner: string)
    requires inner != [] && ']' !in inner
    ensures MatchLen(Bracket, "[" + inner + "]") == |inner| + 2
  {
    var s := "[" + inner + "]";
    assert s == "[" + inner + "]" + "";
    BracketAtStart(inner, "");
    assert s[|s|..] == [];
  }

  lemma DashMatch(s: string)
    requires s != [] && s[0] == '-' && BracketLen(LStrip(s[1..])) > 0
    ensures var afterDash := LStrip(s[1..]);
            MatchLen(DashBracket, s) == 1 + SpaceRun(s[1..]) + BracketLen(afterDash) + SpaceRun(afterDash[BracketLen(afterDash)..])
  {
  }

  lemma DashWhole(sp: string, inner: string)
    requires AllSpace(sp) && inner != [] && ']' !in inner
    ensures MatchLen(DashBracket, "-" + sp + "[" + inner + "]") == |sp| + |inner| + 3
  {
    var tag := "[" + inner + "]";
    var s := "-" + sp + "[" + inner + "]";
    assert s == "-" + sp + tag;
    assert s[1..] == sp + tag;
    LStripSpaces(sp, tag);
    assert LStrip(s[1..]) == tag;
    assert SpaceRun(s[1..]) == |sp|;
    assert tag == "[" + inner + "]" + "";
    BracketAtStart(inner, "");
    assert BracketLen(tag) == |tag|;
    assert tag[|tag|..] == [];
    assert SpaceRun(tag[|tag|..]) == 0;
    assert s[0] == '-';
    DashMatch(s);
  }

  lemma EnclosedWhole(c: char, inner: string, d: char)
    requires d !in inner
    ensures EnclosedLen([c] + inner + [d], c, d) == |inner| + 2
  {
    var s := [c] + inner + [d];
    assert s[1..] == inner + [d] + "";
    IndexOfAfter(inner, d, "");
  }

  lemma BracketTagLeavesNothing(inner: string)
    requires inner != [] && ']' !in inner && '[' !in inner
    ensures StripTags("[" + inner + "]") == []
  {
    var s := "[" + inner + "]";
    assert s[1..] == inner + "]";
    RemoveAllWithoutOpener(DashBracket, s[1..]);
    assert MatchLen(DashBracket, s) == 0;
    assert RemoveAll(DashBracket, s) == [s[0]] + s[1..] == s;
    BracketWhole(inner);
    RemovedBy(Bracket, s);
  }

  /** A speaker tag on its own, `[inner]`, is not meaningful, whatever letters are inside. */
  lemma LoneBracketTag(inner: string)
    requires inner != [] && ']' !in inner && '[' !in inner
    ensures !ContainsMeaningfulWords(JStr("[" + inner + "]"))
  {
    BracketTagLeavesNothing(inner);
    NothingLeft("[" + inner + "]");
  }

  lemma DashTagLeavesNothing(sp: string, inner: string)
    requires AllSpace(sp) && inner != [] && ']' !in inner
    ensures StripTags("-" + sp + "[" + inner + "]") == []
  {
    DashWhole(sp, inner);
    RemovedBy(DashBracket, "-" + sp + "[" + inner + "]");
  }

  /** Nor is a dash, whitespace and a speaker tag, `- [inner]`. */
  lemma LoneDashTag(sp: string, inner: string)
    requires AllSpace(sp) && inner != [] && ']' !in inner
    ensures !ContainsMeaningfulWords(JStr("-" + sp + "[" + inner + "]"))
  {
    DashTagLeavesNothing(sp, inner);
    NothingLeft("-" + sp + "[" + inner + "]");
  }

  lemma ParenthesisLeavesNothing(inner: string)
    requires ')' !in inner && '[' !in inner
    ensures StripTags("(" + inner + ")") == []
  {
    var s := "(" + inner + ")";
    assert '[' !in s;
    RemoveAllWithoutOpener(DashBracket, s);
    RemoveAllWithoutOpener(Bracket, s);
    EnclosedWhole('(', inner, ')');
    RemovedBy(Paren, s);
  }

  /** Nor is an aside `(inner)`, when no `[` inside can start an earlier match. */
  lemma LoneParenthesis(inner: string)
    requires ')' !in inner && '[' !in inner
    ensures !ContainsMeaningfulWords(JStr("(" + inner + ")"))
  {
    ParenthesisLeavesNothing(inner);
    NothingLeft("(" + inner + ")");
  }

  lemma HtmlTagLeavesNothing(inner: string)
    requires '>' !in inner && '[' !in inner && '(' !in inner
    ensures StripTags("<" + inner + ">") == []
  {
    var s := "<" + inner + ">";
    assert '[' !in s && '(' !in s;
    WithoutOpenersKept(s);
    EnclosedWhole('<', inner, '>');
    RemovedBy(Angle, s);
  }

  lemma WithoutOpenersKept(s: string)
    requires '[' !in s && '(' !in s
    ensures RemoveAll(DashBracket, s) == s && RemoveAll(Bracket, s) == s && RemoveAll(Paren, s) == s
  {
    RemoveAllWithoutOpener(DashBracket, s);
    RemoveAllWithoutOpener(Bracket, s);
    RemoveAllWithoutOpener(Paren, s);
  }

  /** Nor is an HTML tag `<inner>`, when nothing inside can start an earlier match. */
  lemma LoneHtmlTag(inner: string)
    requires '>' !in inner && '[' !in inner && '(' !in inner
    ensures !ContainsMeaningfulWords(JStr("<" + inner + ">"))
  {
    HtmlTagLeavesNothing(inner);
    NothingLeft("<" + inner + ">");
  }

  // ----- filter_aligner_segments, subtitle_filters.py:74-117 -----

  /** `segment.get("text", "")`. */
  function TextOf(segment: map<string, Json>): Json {
    if "text" in segment then segment["text"] else JStr("")
  }

  /** A segment is kept when it is a dict whose text is meaningful (an empty text is not). */
  predicate Keeps(segment: Json) {
    segment.JObject? && ContainsMeaningfulWords(TextOf(segment.fields))
  }

  function FilteredSegments(segments: seq<Json>): seq<Json>
    decreases |segments|
  {
    if segments == [] then []
    else
      var last := segments[|segments| - 1];
      FilteredSegments(segments[..|segments| - 1]) + (if Keeps(last) then [last] else [])
  }

  /** The dict segments that are dropped: the ones with no text and the ones whose text is not meaningful. */
  function RemovedCount(segments: seq<Json>): nat
    decreases |segments|
  {
    if segments == [] then 0
    else
      var last := segments[|segments| - 1];
      RemovedCount(segments[..|segments| - 1]) + (if last.JObject? && !Keeps(last) then 1 else 0)
  }

  /** The segments skipped with a warning for not being dicts. */
  function NonDictCount(segments: seq<Json>): nat
    decreases |segments|
  {
    if segments == [] then 0
    else NonDictCount(segments[..|segments| - 1]) + (if segments[|segments| - 1].JObject? then 0 else 1)
  }

  /** The loop of filter_aligner_segments, with `removed_count`, which the source only logs, as a second result. */
  method FilterAlignerSegments(segments: seq<Json>) returns (filtered: seq<Json>, removedCount: nat)
    ensures filtered == FilteredSegments(segments) && removedCount == RemovedCount(segments)
  {
    if segments == [] {
      return segments, 0;
    }
    filtered := [];
    removedCount := 0;
    var i := 0;
    while i < |segments|
      invariant 0 <= i <= |segments|
      invariant filtered == FilteredSegments(segments[..i]) && removedCount == RemovedCount(segments[..i])
    {
      var segment := segments[i];
      assert segments[..i + 1][..i] == segments[..i];
      if !segment.JObject? {
        i := i + 1;
        continue;
      }
      var text := TextOf(segment.fields);
      if !Truthy(text) {
        removedCount := removedCount + 1;
        i := i + 1;
        continue;
      }
      if ContainsMeaningfulWords(text) {
        filtered := filtered + [segment];
      } else {
        removedCount := removedCount + 1;
      }
      i := i + 1;
    }
    assert segments[..i] == segments;
  }

  // ----- properties of filter_aligner_segments -----

  /** Every segment is kept, counted as removed, or skipped as a non-dict. */
  lemma {:induction false} FilterCounts(segments: seq<Json>)
    ensures |FilteredSegments(segments)| + RemovedCount(segments) + NonDictCount(segments) == |segments|
    decreases |segments|
  {
    if segments != [] {
      FilterCounts(segments[..|segments| - 1]);
    }
  }

  /** What the filter makes of each segment. */
  function Selections(segments: seq<Json>): (r: seq<Option<Json>>)
    ensures |r| == |segments| && forall i :: 0 <= i < |segments| ==> r[i] == if Keeps(segments[i]) then Some(segments[i]) else None
  {
    seq(|segments|, i requires 0 <= i < |segments| => if Keeps(segments[i]) then Some(segments[i]) else None)
  }

  lemma {:induction false} FilteredAreSomes(segments: seq<Json>)
    ensures FilteredSegments(segments) == Somes(Selections(segments))
    decreases |segments|
  {
    if segments != [] {
      var front := segments[..|segments| - 1];
      FilteredAreSomes(front);
      var os := Selections(segments);
      assert os[..|os| - 1] == Selections(front);
    }
  }

  /**
   * The result is the subsequence of the segments that are kept: the k-th result is the
   * segment at position `idx[k]`, which is kept, the positions increase, and every kept
   * position is among them.
   */
  lemma FilteredInOrder(segments: seq<Json>)
    ensures var r, idx := FilteredSegments(segments), SomePositions(Selections(segments));
            |idx| == |r|
            && (forall k :: 0 <= k < |idx| ==> idx[k] < |segments| && r[k] == segments[idx[k]] && Keeps(segments[idx[k]]))
            && (forall k, l :: 0 <= k < l < |idx| ==> idx[k] < idx[l])
            && (forall i :: 0 <= i < |segments| && Keeps(segments[i]) ==> i in idx)
  {
    var os := Selections(segments);
    FilteredAreSomes(segments);
    SomePositionsMatch(os);
    SomePositionsOrdered(os);
    SomePositionsComplete(os);
  }

  /** A segment is kept exactly when it is a dict whose text is a string with an ASCII letter or digit outside the tags. */
  lemma KeepsIffAlnum(segment: Json)
    ensures Keeps(segment) <==>
              segment.JObject? && TextOf(segment.fields).JStr? && HasAsciiAlnum(StripTags(TextOf(segment.fields).s))
  {
    if segment.JObject? && TextOf(segment.fields).JStr? {
      MeaningfulIffAlnumAfterTags(TextOf(segment.fields).s);
    }
  }
}
