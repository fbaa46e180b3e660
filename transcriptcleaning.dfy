/**
 * The transcript cleaning of save_as_srt.py: `clean_transcription_data` (113-142), which
 * renumbers `speaker_<n>` ids from 1 and removes NULs and expands acronyms in the word
 * texts of a copy of the transcript, and the per-word cleaning loop of
 * `generate_srt_from_transcript` (273-313), which rewrites every word text and drops the
 * words and the segments that are left empty.
 */
module TranscriptCleaning {
  import opened Wrappers
  import opened PyStr
  import opened JsonData
  import opened TextCleaning
  import opened Selection

  /** The exceptions a `words` value of an unexpected shape raises. */
  datatype CleanError =
    /** An element of `words` has no `get`: it is not a dict. */
    | AttributeError
    /** `words` is not iterable. */
    | TypeError

  // ----- clean_transcription_data -----

  /** `s.replace("\x00", "")`. */
  function RemoveNuls(s: string): (r: string)
    ensures '\0' !in r
    ensures |r| <= |s|
    ensures '\0' !in s ==> r == s
    decreases |s|
  {
    if s == [] then [] else (if s[0] == '\0' then [] else [s[0]]) + RemoveNuls(s[1..])
  }

  /** Removing NULs works piece by piece. */
  lemma {:induction false} RemoveNulsAppend(a: string, b: string)
    ensures RemoveNuls(a + b) == RemoveNuls(a) + RemoveNuls(b)
    decreases |a|
  {
    if a != [] {
      HeadOfAppend(a, b);
      RemoveNulsAppend(a[1..], b);
      var h := if a[0] == '\0' then [] else [a[0]];
      assert RemoveNuls(a + b) == h + RemoveNuls(a[1..] + b);
      AppendAssoc(h, RemoveNuls(a[1..]), RemoveNuls(b));
    } else {
      assert a + b == b;
    }
  }

  /** A NUL on its own goes; with `RemoveNulsAppend` and the identity on NUL-free text this fixes `RemoveNuls` entirely. */
  lemma RemoveNulsOfNul()
    ensures RemoveNuls("\0") == ""
  {
  }

  /** So the result is the text without its NULs, every other character kept in order. */
  lemma RemoveNulsAroundNul(a: string, b: string)
    requires '\0' !in a && '\0' !in b
    ensures RemoveNuls(a + "\0" + b) == a + b
  {
    RemoveNulsAppend(a + "\0", b);
    RemoveNulsAppend(a, "\0");
    RemoveNulsOfNul();
  }

  /** `f"speaker_{int(speaker_id.split('_')[1]) + 1}"`, when the id has an underscore and the piece after it parses. */
  function RenumberedSpeaker(id: string): Option<string> {
    if '_' in id then
      match ParseInt(SecondPiece(id, '_'))
      case Some(n) => Some("speaker_" + IntToString(n + 1))
      case None => None
    else None
  }

  /** Step 1 on one word: a string id that renumbers is replaced. */
  function RenumberWord(w: map<string, Json>): map<string, Json> {
    if "speaker_id" in w && w["speaker_id"].JStr? && RenumberedSpeaker(w["speaker_id"].s).Some? then
      w["speaker_id" := JStr(RenumberedSpeaker(w["speaker_id"].s).value)]
    else w
  }

  /** Step 2 on one word: a string text loses its NULs, then has its acronyms expanded. */
  function CleanWordText(w: map<string, Json>): map<string, Json> {
    if "text" in w && w["text"].JStr? then w["text" := JStr(ExpandAcronyms(RemoveNuls(w["text"].s)))]
    else w
  }

  /** `for word in cleaned["words"]: word.get(...)` fails unless every element is a dict. */
  predicate AllDicts(items: seq<Json>) {
    forall i :: 0 <= i < |items| ==> items[i].JObject?
  }

  /** The cleaned copy, or the exception the two loops raise. */
  function CleanedTranscription(transcript: map<string, Json>): Result<map<string, Json>, CleanError> {
    if "words" !in transcript then Ok(transcript)
    else match transcript["words"]
      case JList(items) =>
        if AllDicts(items) then
          Ok(transcript["words" := JList(seq(|items|, i requires 0 <= i < |items| =>
                                                 JObject(CleanWordText(RenumberWord(items[i].fields)))))])
        else Err(AttributeError)
      // iterating a string or a dict gives strings, which have no `get`
      case JStr(s) => if s == "" then Ok(transcript) else Err(AttributeError)
      case JObject(f) => if f == map[] then Ok(transcript) else Err(AttributeError)
      case _ => Err(TypeError)
  }

  /**
   * The two loops over the words of the copy. The copy is a value here, so the caller's
   * transcript cannot change.
   */
  method CleanTranscriptionData(transcript: map<string, Json>) returns (result: Result<map<string, Json>, CleanError>)
    ensures result == CleanedTranscription(transcript)
  {
    var cleaned := transcript;
    if "words" !in cleaned {
      return Ok(cleaned);
    }
    var value := cleaned["words"];
    if value.JStr? || value.JObject? {
      if (value.JStr? && value.s != "") || (value.JObject? && value.fields != map[]) {
        return Err(AttributeError);
      }
      return Ok(cleaned);
    }
    if !value.JList? {
      return Err(TypeError);
    }
    var items := value.items;
    var renumbered := RenumberSpeakerIds(items);
    if renumbered.None? {
      return Err(AttributeError);
    }
    var words := CleanWordTexts(renumbered.value);
    assert words == seq(|items|, j requires 0 <= j < |items| => JObject(CleanWordText(RenumberWord(items[j].fields))));
    cleaned := cleaned["words" := JList(words)];
    return Ok(cleaned);
  }

  /** Step 1, save_as_srt.py:123-131: fails at the first word that is not a dict. */
  method RenumberSpeakerIds(items: seq<Json>) returns (result: Option<seq<Json>>)
    ensures result.Some? <==> AllDicts(items)
    ensures result.Some? ==>
              |result.value| == |items|
              && forall j :: 0 <= j < |items| ==> result.value[j] == JObject(RenumberWord(items[j].fields))
  {
    var words := items;
    var i := 0;
    while i < |words|
      invariant 0 <= i <= |words| == |items|
      invariant forall j :: 0 <= j < i ==> items[j].JObject?
      invariant forall j :: 0 <= j < i ==> words[j] == RenumberItem(items[j])
      invariant forall j :: i <= j < |words| ==> words[j] == items[j]
    {
      if !words[i].JObject? {
        return None;
      }
      var word := RenumberWord(words[i].fields);
      ReplaceStep(RenumberItem, words, items, i);
      words := words[i := JObject(word)];
      i := i + 1;
    }
    return Some(words);
  }

  /** What step 1 makes of a list element that is a dict. */
  function RenumberItem(x: Json): (r: Json)
    ensures x.JObject? ==> r == JObject(RenumberWord(x.fields))
  {
    if x.JObject? then JObject(RenumberWord(x.fields)) else x
  }

  /** The two updates of the text field in the loop body are `CleanWordText`. */
  lemma TextStepsAreCleanWordText(w: map<string, Json>)
    requires "text" in w && w["text"].JStr?
    ensures var w1 := w["text" := JStr(RemoveNuls(w["text"].s))];
            w1["text" := JStr(ExpandAcronyms(w1["text"].s))] == CleanWordText(w)
  {
  }

  /** Step 2, save_as_srt.py:134-140. */
  method CleanWordTexts(items: seq<Json>) returns (words: seq<Json>)
    requires AllDicts(items)
    ensures |words| == |items| && forall j :: 0 <= j < |items| ==> words[j] == JObject(CleanWordText(items[j].fields))
  {
    words := items;
    var i := 0;
    while i < |words|
      invariant 0 <= i <= |words| == |items|
      invariant forall j :: 0 <= j < i ==> words[j] == CleanItem(items[j])
      invariant forall j :: i <= j < |words| ==> words[j] == items[j]
    {
      var word := words[i].fields;
      if "text" in word && word["text"].JStr? {
        TextStepsAreCleanWordText(word);
        word := word["text" := JStr(RemoveNuls(word["text"].s))];
        word := word["text" := JStr(ExpandAcronyms(word["text"].s))];
      }
      assert JObject(word) == CleanItem(words[i]);
      ReplaceStep(CleanItem, words, items, i);
      words := words[i := JObject(word)];
      i := i + 1;
    }
  }

  /** What step 2 makes of a list element that is a dict. */
  function CleanItem(x: Json): (r: Json)
    ensures x.JObject? ==> r == JObject(CleanWordText(x.fields))
  {
    if x.JObject? then JObject(CleanWordText(x.fields)) else x
  }

  // ----- the segment-cleaning loop of generate_srt_from_transcript -----

  /** The characters of `[,.!?;:]`. */
  predicate IsMark(c: char) {
    c in ",.!?;:"
  }

  /** `re.sub(r"\s+([,.!?;:])", r"\1", s)`: a whitespace run right before a mark is removed. */
  function DropSpaceBeforeMarks(s: string): string
    decreases |s|
  {
    if s == [] then []
    else if IsSpace(s[0]) && LStrip(s[1..]) != [] && IsMark(LStrip(s[1..])[0]) then DropSpaceBeforeMarks(LStrip(s[1..]))
    else [s[0]] + DropSpaceBeforeMarks(s[1..])
  }

  /** `re.sub(r"([,.!?;:])\s*([,.!?;:])", r"\1\2", s)`: two marks lose the whitespace between them; matches do not overlap. */
  function JoinMarks(s: string): string
    decreases |s|
  {
    if s == [] then []
    else if IsMark(s[0]) && LStrip(s[1..]) != [] && IsMark(LStrip(s[1..])[0]) then
      var rest := LStrip(s[1..]);
      [s[0], rest[0]] + JoinMarks(rest[1..])
    else [s[0]] + JoinMarks(s[1..])
  }

  /** The substitutions of save_as_srt.py:290-305, in order. */
  function CleanText(text: string): string {
    var noNuls := RemoveNuls(text);
    var spaced := Collapse(noNuls);
    var marksFixed := JoinMarks(DropSpaceBeforeMarks(spaced));
    Strip(FixWordSpacingIssues(marksFixed))
  }

  /** A dict word with a string text is kept, with its text cleaned, unless that leaves it empty. */
  function CleanedWord(w: Json): Option<Json> {
    if w.JObject? && "text" in w.fields && w.fields["text"].JStr? then
      var c := CleanText(w.fields["text"].s);
      if c != "" then Some(JObject(w.fields["text" := JStr(c)])) else None
    else None
  }

  function CleanedWords(ws: seq<Json>): seq<Json>
    decreases |ws|
  {
    if ws == [] then []
    else
      var front := CleanedWords(ws[..|ws| - 1]);
      match CleanedWord(ws[|ws| - 1])
      case Some(c) => front + [c]
      case None => front
  }

  function CleanedSegments(segs: seq<seq<Json>>): seq<seq<Json>>
    decreases |segs|
  {
    if segs == [] then []
    else
      var front := CleanedSegments(segs[..|segs| - 1]);
      var ws := CleanedWords(segs[|segs| - 1]);
      if ws != [] then front + [ws] else front
  }

  /** Only the list form of a segment is modelled: the pipeline makes no other. */
  method CleanSpeechSegments(speechSegments: seq<seq<Json>>) returns (finalSegments: seq<seq<Json>>)
    ensures finalSegments == CleanedSegments(speechSegments)
  {
    finalSegments := [];
    var i := 0;
    while i < |speechSegments|
      invariant 0 <= i <= |speechSegments|
      invariant finalSegments == CleanedSegments(speechSegments[..i])
    {
      var segWords := speechSegments[i];
      assert speechSegments[..i + 1][..i] == speechSegments[..i];
      if segWords == [] {
        i := i + 1;
        continue;
      }
      var cleanedWords := CleanSegmentWords(segWords);
      if cleanedWords != [] {
        finalSegments := finalSegments + [cleanedWords];
      }
      i := i + 1;
    }
    assert speechSegments[..i] == speechSegments;
  }

  /** The inner loop over the words of one segment. */
  method CleanSegmentWords(segWords: seq<Json>) returns (cleanedWords: seq<Json>)
    ensures cleanedWords == CleanedWords(segWords)
  {
    cleanedWords := [];
    var j := 0;
    while j < |segWords|
      invariant 0 <= j <= |segWords|
      invariant cleanedWords == CleanedWords(segWords[..j])
    {
      var word := segWords[j];
      assert segWords[..j + 1][..j] == segWords[..j];
      if word.JObject? && "text" in word.fields {
        var cleanedText := word.fields["text"];
        if cleanedText.JStr? {
          var t := RemoveNuls(cleanedText.s);
          t := Collapse(t);
          t := DropSpaceBeforeMarks(t);
          t := JoinMarks(t);
          t := FixWordSpacingIssues(t);
          t := Strip(t);
          assert t == CleanText(cleanedText.s);
          if t != "" {
            var wordCopy := word.fields["text" := JStr(t)];
            cleanedWords := cleanedWords + [JObject(wordCopy)];
          }
        }
      }
      j := j + 1;
    }
    assert segWords[..j] == segWords;
  }

  // ----- properties of clean_transcription_data -----

  /** `s.split("_")[1]` of `p + "_" + d` is `d` when neither has an underscore. */
  lemma SecondPieceAfter(p: string, d: string)
    requires '_' !in p && '_' !in d
    ensures '_' in p + "_" + d && SecondPiece(p + "_" + d, '_') == d
  {
    var s := p + "_" + d;
    IndexOfAfter(p, '_', d);
    assert s[|p| + 1..] == d;
  }

  lemma IntToStringHasNoUnderscore(n: int)
    ensures '_' !in IntToString(n)
  {
    var digits := NatToString(if n < 0 then -n else n);
    assert forall k :: 0 <= k < |digits| ==> IsAsciiDigit(digits[k]);
    if n < 0 {
      assert IntToString(n) == "-" + digits;
      assert forall k :: 0 <= k < |IntToString(n)| ==> IntToString(n)[k] == '-' || IsAsciiDigit(IntToString(n)[k]);
    }
  }

  /** `<prefix>_<n>` becomes `speaker_<n + 1>`, whatever the prefix without an underscore, so `speaker_0` is `speaker_1`. */
  lemma RenumbersFromOne(p: string, n: int)
    requires '_' !in p
    ensures RenumberedSpeaker(p + "_" + IntToString(n)) == Some("speaker_" + IntToString(n + 1))
  {
    IntToStringHasNoUnderscore(n);
    SecondPieceAfter(p, IntToString(n));
    ParseIntOfIntToString(n);
  }

  /** Step 1 changes at most the id, and the id exactly when it renumbers. */
  lemma RenumberWordSpec(f: map<string, Json>)
    ensures var g := RenumberWord(f);
            g.Keys == f.Keys && (forall k :: k in f && k != "speaker_id" ==> g[k] == f[k])
            && ("speaker_id" in f ==>
                  g["speaker_id"] == if f["speaker_id"].JStr? && RenumberedSpeaker(f["speaker_id"].s).Some?
                                     then JStr(RenumberedSpeaker(f["speaker_id"].s).value) else f["speaker_id"])
  {
  }

  /**
   * Step 2 changes at most the text: a string text loses its NULs and otherwise changes only
   * by the periods of the expanded acronyms.
   */
  lemma CleanWordTextSpec(f: map<string, Json>)
    ensures var g := CleanWordText(f);
            g.Keys == f.Keys && (forall k :: k in f && k != "text" ==> g[k] == f[k])
            && ("text" in f && f["text"].JStr? ==>
                  g["text"].JStr? && '\0' !in g["text"].s
                  && Undotted(g["text"].s) == Undotted(RemoveNuls(f["text"].s)))
            && ("text" in f && !f["text"].JStr? ==> g["text"] == f["text"])
  {
    if "text" in f && f["text"].JStr? {
      var t := RemoveNuls(f["text"].s);
      ExpandKeepsCharacters(t, '\0');
      ExpandOnlyAddsPeriods(t, false);
      assert CleanWordText(f)["text"].s == ExpandAcronyms(t);
    }
  }

  /**
   * The transcript's other fields are untouched and its word list keeps its length, each
   * word cleaned by the two steps; the exceptions come exactly from a `words` value that is
   * not a list of dicts (an empty string or dict is iterated without effect).
   */
  lemma CleanedTranscriptionSpec(t: map<string, Json>)
    ensures var r := CleanedTranscription(t);
            (r.Ok? ==> r.value.Keys == t.Keys && forall k :: k in t && k != "words" ==> r.value[k] == t[k])
            && (r.Ok? && "words" in t && t["words"].JList? ==>
                  r.value["words"].JList? && |r.value["words"].items| == |t["words"].items|
                  && forall i :: 0 <= i < |t["words"].items| ==>
                       t["words"].items[i].JObject?
                       && r.value["words"].items[i] == JObject(CleanWordText(RenumberWord(t["words"].items[i].fields))))
            && (r.Err? <==> "words" in t && match t["words"]
                  case JList(items) => !AllDicts(items)
                  case JStr(s) => s != ""
                  case JObject(f) => f != map[]
                  case _ => true)
  {
  }

  // ----- properties of the segment-cleaning loop -----

  lemma {:induction false} DropSpaceNonSpace(s: string)
    ensures NonSpace(DropSpaceBeforeMarks(s)) == NonSpace(s)
    decreases |s|
  {
    if s != [] {
      if IsSpace(s[0]) && LStrip(s[1..]) != [] && IsMark(LStrip(s[1..])[0]) {
        DropSpaceNonSpace(LStrip(s[1..]));
        LStripNonSpace(s[1..]);
      } else {
        DropSpaceNonSpace(s[1..]);
        NonSpaceCons(s[0], DropSpaceBeforeMarks(s[1..]), s[1..]);
        assert s == [s[0]] + s[1..];
      }
    }
  }

  /** One joining step: the mark `a`, then `rest` after whitespace `orig`. */
  lemma JoinStepNonSpace(a: char, orig: string, rest: string)
    requires rest != [] && LStrip(orig) == rest
    requires NonSpace(JoinMarks(rest[1..])) == NonSpace(rest[1..])
    ensures NonSpace([a, rest[0]] + JoinMarks(rest[1..])) == NonSpace([a] + orig)
  {
    PairNonSpace(a, orig, rest, JoinMarks(rest[1..]));
  }

  lemma PairNonSpace(a: char, orig: string, rest: string, joined: string)
    requires rest != [] && LStrip(orig) == rest
    requires NonSpace(joined) == NonSpace(rest[1..])
    ensures NonSpace([a, rest[0]] + joined) == NonSpace([a] + orig)
  {
    NonSpaceCons(rest[0], joined, rest[1..]);
    ConsSplit(rest);
    LStripNonSpace(orig);
    NonSpaceCons(a, [rest[0]] + joined, orig);
    PairCons(a, rest[0], joined);
  }

  lemma {:induction false} JoinMarksNonSpace(s: string)
    ensures NonSpace(JoinMarks(s)) == NonSpace(s)
    decreases |s|
  {
    if s != [] {
      assert s == [s[0]] + s[1..];
      if IsMark(s[0]) && LStrip(s[1..]) != [] && IsMark(LStrip(s[1..])[0]) {
        var rest := LStrip(s[1..]);
        JoinMarksNonSpace(rest[1..]);
        JoinStepNonSpace(s[0], s[1..], rest);
      } else {
        JoinMarksNonSpace(s[1..]);
        NonSpaceCons(s[0], JoinMarks(s[1..]), s[1..]);
      }
    }
  }

  /** The substitutions before the word-spacing fix change nothing but whitespace. */
  lemma MarkFixesKeepCharacters(s: string)
    ensures NonSpace(JoinMarks(DropSpaceBeforeMarks(Collapse(s)))) == NonSpace(s)
  {
    CollapseNonSpace(s);
    DropSpaceNonSpace(Collapse(s));
    JoinMarksNonSpace(DropSpaceBeforeMarks(Collapse(s)));
  }

  /** Apart from whitespace, a cleaned text is the text without its NULs. */
  lemma CleanTextKeepsCharacters(text: string)
    ensures NonSpace(CleanText(text)) == NonSpace(RemoveNuls(text))
  {
    var marksFixed := JoinMarks(DropSpaceBeforeMarks(Collapse(RemoveNuls(text))));
    MarkFixesKeepCharacters(RemoveNuls(text));
    var fixed := FixWordSpacingIssues(marksFixed);
    FixWordSpacingSpec(marksFixed);
    StripOfStripped(fixed);
    assert CleanText(text) == fixed;
  }

  /** So a cleaned text has no NUL. */
  lemma CleanTextHasNoNul(text: string)
    ensures '\0' !in CleanText(text)
  {
    CleanTextKeepsCharacters(text);
    NoNulBySameCharacters(CleanText(text), RemoveNuls(text));
  }

  /** Two strings equal but for whitespace hold the same NULs. */
  lemma NoNulBySameCharacters(a: string, b: string)
    requires NonSpace(a) == NonSpace(b) && '\0' !in b
    ensures '\0' !in a
  {
    InNonSpace(a, '\0');
    InNonSpace(b, '\0');
  }

  // ----- what the two punctuation substitutions leave behind -----

  /** No whitespace character stands right before a mark. */
  predicate NoSpaceBeforeMark(s: string) {
    forall i :: 0 <= i < |s| - 1 ==> !(IsSpace(s[i]) && IsMark(s[i + 1]))
  }

  /** Joining two strings with the property adds only the pair at the seam. */
  lemma NoSpaceBeforeMarkAppend(a: string, b: string)
    requires NoSpaceBeforeMark(a) && NoSpaceBeforeMark(b)
    requires a == [] || b == [] || !(IsSpace(a[|a| - 1]) && IsMark(b[0]))
    ensures NoSpaceBeforeMark(a + b)
  {
    var ab := a + b;
    forall i | 0 <= i < |ab| - 1 ensures !(IsSpace(ab[i]) && IsMark(ab[i + 1])) {
      if i < |a| - 1 {
        assert ab[i] == a[i] && ab[i + 1] == a[i + 1];
      } else if i == |a| - 1 {
        assert ab[i] == a[|a| - 1] && ab[i + 1] == b[0];
      } else {
        assert ab[i] == b[i - |a|] && ab[i + 1] == b[i - |a| + 1];
      }
    }
  }

  lemma NoSpaceBeforeMarkSlice(s: string, i: int, j: int)
    requires NoSpaceBeforeMark(s) && 0 <= i <= j <= |s|
    ensures NoSpaceBeforeMark(s[i..j])
  {
    forall p | 0 <= p < j - i - 1 ensures !(IsSpace(s[i..j][p]) && IsMark(s[i..j][p + 1])) {
      assert s[i..j][p] == s[i + p] && s[i..j][p + 1] == s[i + p + 1];
    }
  }

  /** In such a string, what follows a leading whitespace run is no mark. */
  lemma {:induction false} SpaceRunNotBeforeMark(t: string)
    requires NoSpaceBeforeMark(t)
    ensures t != [] && IsSpace(t[0]) ==> LStrip(t) == [] || !IsMark(LStrip(t)[0])
    decreases |t|
  {
    if |t| > 1 && IsSpace(t[0]) {
      NoSpaceBeforeMarkSlice(t, 1, |t|);
      assert t[1..][0] == t[1];
      SpaceRunNotBeforeMark(t[1..]);
      if !IsSpace(t[1]) {
        assert LStrip(t[1..]) == t[1..];
      }
    }
  }

  /** A result of the first substitution starts with a mark only where its input does, after leading whitespace. */
  lemma DropHead(t: string)
    ensures var d := DropSpaceBeforeMarks(t);
            d != [] && IsMark(d[0]) ==> LStrip(t) != [] && IsMark(LStrip(t)[0])
  {
    if t != [] && !(IsSpace(t[0]) && LStrip(t[1..]) != [] && IsMark(LStrip(t[1..])[0])) {
      if IsMark(t[0]) {
        assert !IsSpace(t[0]);
        assert LStrip(t) == t;
      }
    }
  }

  /** After `re.sub(r"\s+([,.!?;:])", r"\1", s)` no whitespace stands before a mark. */
  lemma {:induction false} DropLeavesNoSpaceBeforeMark(s: string)
    ensures NoSpaceBeforeMark(DropSpaceBeforeMarks(s))
    decreases |s|
  {
    if s != [] {
      if IsSpace(s[0]) && LStrip(s[1..]) != [] && IsMark(LStrip(s[1..])[0]) {
        DropLeavesNoSpaceBeforeMark(LStrip(s[1..]));
      } else {
        DropLeavesNoSpaceBeforeMark(s[1..]);
        DropHead(s[1..]);
        NoSpaceBeforeMarkAppend([s[0]], DropSpaceBeforeMarks(s[1..]));
      }
    }
  }

  /** Where no whitespace precedes a mark, a mark after leading whitespace is the first character. */
  lemma LStripBeforeMark(t: string)
    requires NoSpaceBeforeMark(t) && LStrip(t) != [] && IsMark(LStrip(t)[0])
    ensures LStrip(t) == t
  {
    SpaceRunNotBeforeMark(t);
  }

  /** With no whitespace before a mark, `re.sub(r"([,.!?;:])\s*([,.!?;:])", r"\1\2", s)` changes nothing. */
  lemma {:induction false} JoinMarksIdentity(s: string)
    requires NoSpaceBeforeMark(s)
    ensures JoinMarks(s) == s
    decreases |s|
  {
    if s != [] {
      NoSpaceBeforeMarkSlice(s, 1, |s|);
      if IsMark(s[0]) && LStrip(s[1..]) != [] && IsMark(LStrip(s[1..])[0]) {
        var rest := LStrip(s[1..]);
        LStripBeforeMark(s[1..]);
        assert rest[1..] == s[2..];
        NoSpaceBeforeMarkSlice(s, 2, |s|);
        JoinMarksIdentity(s[2..]);
        PairSplit(s);
      } else {
        JoinMarksIdentity(s[1..]);
        ConsSplit(s);
      }
    }
  }

  /** Where no whitespace precedes a mark, the first substitution changes nothing: it removes only whitespace before a mark. */
  lemma {:induction false} DropSpaceFixpoint(s: string)
    requires NoSpaceBeforeMark(s)
    ensures DropSpaceBeforeMarks(s) == s
    decreases |s|
  {
    if s != [] {
      SpaceRunNotBeforeMark(s);
      assert !(IsSpace(s[0]) && LStrip(s[1..]) != [] && IsMark(LStrip(s[1..])[0]));
      NoSpaceBeforeMarkSlice(s, 1, |s|);
      DropSpaceFixpoint(s[1..]);
      ConsSplit(s);
    }
  }

  /** Dropping whitespace twice is dropping it once. */
  lemma DropSpaceIdempotent(s: string)
    ensures DropSpaceBeforeMarks(DropSpaceBeforeMarks(s)) == DropSpaceBeforeMarks(s)
  {
    DropLeavesNoSpaceBeforeMark(s);
    DropSpaceFixpoint(DropSpaceBeforeMarks(s));
  }

  /** A word without whitespace passes through the first substitution unchanged. */
  lemma {:induction false} DropWord(a: string, t: string)
    requires NoWhitespace(a)
    ensures DropSpaceBeforeMarks(a + t) == a + DropSpaceBeforeMarks(t)
    decreases |a|
  {
    if a != [] {
      HeadOfAppend(a, t);
      DropWord(a[1..], t);
      AppendAssoc([a[0]], a[1..], DropSpaceBeforeMarks(t));
      ConsSplit(a);
    } else {
      assert a + t == t;
    }
  }

  /** A space before anything but whitespace or a mark stays. */
  lemma DropSpaceBeforeWord(t: string)
    requires t != [] && !IsSpace(t[0]) && !IsMark(t[0])
    ensures DropSpaceBeforeMarks(" " + t) == " " + DropSpaceBeforeMarks(t)
  {
    HeadOfAppend(" ", t);
    assert LStrip(t) == t;
  }

  /** A whitespace run before a mark goes. */
  lemma DropRunBeforeMark(w: string, m: char, t: string)
    requires w != [] && AllSpace(w) && IsMark(m)
    ensures DropSpaceBeforeMarks(w + ([m] + t)) == [m] + DropSpaceBeforeMarks(t)
  {
    HeadOfAppend(w, [m] + t);
    assert AllSpace(w[1..]);
    assert !IsSpace(m);
    LStripSpaces(w[1..], [m] + t);
    HeadOfAppend([m], t);
  }

  /** So in `CleanText` the second substitution is the identity on what the first leaves. */
  lemma JoinMarksAfterDrop(s: string)
    ensures JoinMarks(DropSpaceBeforeMarks(s)) == DropSpaceBeforeMarks(s)
  {
    DropLeavesNoSpaceBeforeMark(s);
    JoinMarksIdentity(DropSpaceBeforeMarks(s));
  }

  /** One whitespace character before a non-space is all `LStrip` removes. */
  lemma LStripOneSpace(sp: char, t: string)
    requires IsSpace(sp) && t != [] && !IsSpace(t[0])
    ensures LStrip([sp] + t) == t
  {
    assert ([sp] + t)[1..] == t;
  }

  /** A mark, one whitespace character and a mark are one match of the second substitution. */
  lemma JoinMarksAcrossSpace(a: char, sp: char, b: char, t: string)
    requires IsMark(a) && IsSpace(sp) && IsMark(b)
    ensures JoinMarks([a, sp, b] + t) == [a, b] + JoinMarks(t)
  {
    var s := [a, sp, b] + t;
    assert s[1..] == [sp] + ([b] + t);
    LStripOneSpace(sp, [b] + t);
    assert ([b] + t)[1..] == t;
  }

  /** A whitespace character and then a mark, at the end, are no match. */
  lemma JoinMarksOfSpaceThenMark(sp: char, c: char)
    requires IsSpace(sp) && IsMark(c)
    ensures JoinMarks([sp, c]) == [sp, c]
  {
    assert [sp, c][1..] == [c];
    assert JoinMarks([c]) == [c] by {
      assert [c][1..] == [];
    }
  }

  /** Matches of the second substitution do not overlap: on its own it leaves the space between a second and a third mark. */
  lemma JoinMarksDoesNotOverlap(a: char, b: char, c: char, sp: char)
    requires IsMark(a) && IsMark(b) && IsMark(c) && IsSpace(sp)
    ensures JoinMarks([a, sp, b] + [sp, c]) == [a, b] + [sp, c]
  {
    JoinMarksAcrossSpace(a, sp, b, [sp, c]);
    JoinMarksOfSpaceThenMark(sp, c);
  }

  /** The case `", , ,"`, which becomes `",, ,"`. */
  lemma CommasNotAllJoined()
    ensures JoinMarks(", ," + " ,") == ",," + " ,"
  {
    JoinMarksDoesNotOverlap(',', ',', ',', ' ');
  }

  /** Pulling a letter and a digit apart puts a space only before a letter or a digit. */
  lemma {:induction false} SeparateKeepsNoSpaceBeforeMark(s: string, k: PairKind)
    requires k != TwoSpaces && NoSpaceBeforeMark(s)
    ensures NoSpaceBeforeMark(SeparatePairs(s, k))
    decreases |s|
  {
    if |s| >= 2 {
      if Adjacent(k, s[0], s[1]) {
        NoSpaceBeforeMarkSlice(s, 2, |s|);
        SeparateKeepsNoSpaceBeforeMark(s[2..], k);
        if |s| > 2 {
          SeparateHead(s[2..], k);
        }
        NoSpaceBeforeMarkAppend([s[0], ' ', s[1]], SeparatePairs(s[2..], k));
      } else {
        NoSpaceBeforeMarkSlice(s, 1, |s|);
        SeparateKeepsNoSpaceBeforeMark(s[1..], k);
        SeparateHead(s[1..], k);
        NoSpaceBeforeMarkAppend([s[0]], SeparatePairs(s[1..], k));
      }
    }
  }

  /** Turning whitespace runs into one space puts no space before a mark. */
  lemma {:induction false} CollapseKeepsNoSpaceBeforeMark(s: string)
    requires NoSpaceBeforeMark(s)
    ensures NoSpaceBeforeMark(Collapse(s))
    decreases |s|
  {
    if s != [] {
      NoSpaceBeforeMarkSlice(s, 1, |s|);
      if IsSpace(s[0]) {
        var t := LStrip(s[1..]);
        NoSpaceBeforeMarkSlice(s[1..], |s| - 1 - |t|, |s| - 1);
        assert s[1..][|s| - 1 - |t|..|s| - 1] == t;
        CollapseKeepsNoSpaceBeforeMark(t);
        SpaceRunNotBeforeMark(s);
        if t != [] {
          CollapseHead(t);
        }
        NoSpaceBeforeMarkAppend(" ", Collapse(t));
      } else {
        CollapseKeepsNoSpaceBeforeMark(s[1..]);
        NoSpaceBeforeMarkAppend([s[0]], Collapse(s[1..]));
      }
    }
  }

  /** Stripping keeps a slice, so it keeps the property. */
  lemma StripKeepsNoSpaceBeforeMark(s: string)
    requires NoSpaceBeforeMark(s)
    ensures NoSpaceBeforeMark(Strip(s))
  {
    var l := LStrip(s);
    NoSpaceBeforeMarkSlice(s, |s| - |l|, |s|);
    assert s[|s| - |l|..|s|] == l;
    var r := RStrip(l);
    NoSpaceBeforeMarkSlice(l, 0, |r|);
    assert l[0..|r|] == r;
  }

  /** `fix_word_spacing_issues` puts no whitespace before a mark. */
  lemma FixWordSpacingKeepsNoSpaceBeforeMark(s: string)
    requires NoSpaceBeforeMark(s)
    ensures NoSpaceBeforeMark(FixWordSpacingIssues(s))
  {
    var a := SeparatePairs(s, LetterThenDigit);
    SeparateKeepsNoSpaceBeforeMark(s, LetterThenDigit);
    SeparateKeepsNoSpaceBeforeMark(a, DigitThenLetter);
    var b := SeparatePairs(a, DigitThenLetter);
    CollapseKeepsNoSpaceBeforeMark(b);
    StripKeepsNoSpaceBeforeMark(Collapse(b));
  }

  /** A cleaned text has no whitespace before a mark. */
  lemma CleanTextNoSpaceBeforeMark(text: string)
    ensures NoSpaceBeforeMark(CleanText(text))
  {
    var d := DropSpaceBeforeMarks(Collapse(RemoveNuls(text)));
    JoinMarksAfterDrop(Collapse(RemoveNuls(text)));
    DropLeavesNoSpaceBeforeMark(Collapse(RemoveNuls(text)));
    FixWordSpacingKeepsNoSpaceBeforeMark(d);
    StripKeepsNoSpaceBeforeMark(FixWordSpacingIssues(d));
  }

  /** Where no whitespace precedes a mark, two marks never have only whitespace between them. */
  lemma MarksNotSpaced(r: string)
    requires NoSpaceBeforeMark(r)
    ensures forall i, j :: 0 <= i < j < |r| && IsMark(r[i]) && IsMark(r[j]) && i + 1 < j ==> !AllSpace(r[i + 1..j])
  {
    forall i, j | 0 <= i < j < |r| && IsMark(r[i]) && IsMark(r[j]) && i + 1 < j ensures !AllSpace(r[i + 1..j]) {
      assert r[i + 1..j][j - i - 2] == r[j - 1];
    }
  }

  /** Hence two marks of a cleaned text never have only whitespace between them. */
  lemma CleanTextMarksNotSpaced(text: string)
    ensures var r := CleanText(text);
            forall i, j :: 0 <= i < j < |r| && IsMark(r[i]) && IsMark(r[j]) && i + 1 < j ==> !AllSpace(r[i + 1..j])
  {
    CleanTextNoSpaceBeforeMark(text);
    MarksNotSpaced(CleanText(text));
  }

  /** A cleaned text has no whitespace at either end, only single spaces, no listed letter next to a digit and no whitespace before a mark. */
  lemma CleanTextForm(text: string)
    ensures var r := CleanText(text);
            IsStripped(r) && SingleSpaced(r) && NoPair(r, LetterThenDigit) && NoPair(r, DigitThenLetter)
            && NoSpaceBeforeMark(r)
  {
    var marksFixed := JoinMarks(DropSpaceBeforeMarks(Collapse(RemoveNuls(text))));
    var fixed := FixWordSpacingIssues(marksFixed);
    FixWordSpacingSpec(marksFixed);
    StripOfStripped(fixed);
    assert CleanText(text) == fixed;
    CleanTextNoSpaceBeforeMark(text);
  }

  /** The shape `CleanText` produces. */
  predicate IsCleanText(s: string) {
    '\0' !in s && IsStripped(s) && SingleSpaced(s) && NoPair(s, LetterThenDigit) && NoPair(s, DigitThenLetter)
    && NoSpaceBeforeMark(s)
  }

  /** A text of that shape is left unchanged, so cleaning keeps the single space in `hello world`. */
  lemma CleanTextOfClean(s: string)
    requires IsCleanText(s)
    ensures CleanText(s) == s
  {
    CollapseOfSingleSpaced(s);
    DropSpaceFixpoint(s);
    JoinMarksIdentity(s);
    FixWordSpacingOfFixed(s);
    StripOfStripped(s);
  }

  /** Cleaning twice is cleaning once. */
  lemma CleanTextIdempotent(text: string)
    ensures CleanText(CleanText(text)) == CleanText(text)
  {
    CleanTextForm(text);
    CleanTextHasNoNul(text);
    CleanTextOfClean(CleanText(text));
  }

  /** A word: non-empty, with no whitespace, mark, digit or NUL. */
  predicate PlainWord(w: string) {
    w != [] && forall i :: 0 <= i < |w| ==> !IsSpace(w[i]) && !IsMark(w[i]) && !IsAsciiDigit(w[i]) && w[i] != '\0'
  }

  /** Two words and a mark, with whitespace between: the words keep one space, the mark none. */
  lemma CleanTextSpacesAndMark(a: string, w1: string, b: string, w2: string, m: char, c: string)
    requires PlainWord(a) && PlainWord(b) && PlainWord(c) && IsMark(m)
    requires w1 != [] && AllSpace(w1) && w2 != [] && AllSpace(w2)
    ensures CleanText(a + w1 + b + w2 + [m] + c) == a + " " + b + [m] + c
  {
    var x0 := a + (w1 + (b + (w2 + ([m] + c))));
    calc {
      a + w1 + b + w2 + [m] + c;
      { AppendAssoc(a + w1 + b + w2, [m], c); AppendAssoc(a + w1 + b, w2, [m] + c);
        AppendAssoc(a + w1, b, w2 + ([m] + c)); AppendAssoc(a, w1, b + (w2 + ([m] + c))); }
      x0;
    }
    NoNulWords(a, w1, b, w2, m, c);
    var x1 := a + (" " + (b + (" " + ([m] + c))));
    CollapseStage(a, w1, b, w2, m, c);
    var x2 := a + (" " + (b + ([m] + c)));
    DropStage(a, b, m, c);
    JoinMarksAfterDrop(x1);
    CleanWordsTail(a, b, m, c);
    calc {
      a + " " + b + [m] + c;
      { AppendAssoc(a + " " + b, [m], c); AppendAssoc(a + " ", b, [m] + c); AppendAssoc(a, " ", b + ([m] + c)); }
      x2;
    }
  }

  lemma NoNulWords(a: string, w1: string, b: string, w2: string, m: char, c: string)
    requires PlainWord(a) && PlainWord(b) && PlainWord(c) && IsMark(m) && AllSpace(w1) && AllSpace(w2)
    ensures '\0' !in a + (w1 + (b + (w2 + ([m] + c))))
  {
    assert '\0' !in a && '\0' !in b && '\0' !in c && '\0' !in w1 && '\0' !in w2;
  }

  lemma CollapseStage(a: string, w1: string, b: string, w2: string, m: char, c: string)
    requires PlainWord(a) && PlainWord(b) && PlainWord(c) && IsMark(m)
    requires w1 != [] && AllSpace(w1) && w2 != [] && AllSpace(w2)
    ensures Collapse(a + (w1 + (b + (w2 + ([m] + c))))) == a + (" " + (b + (" " + ([m] + c))))
  {
    assert NoWhitespace(a) && NoWhitespace(b) && NoWhitespace([m] + c);
    CollapseWord(a, w1 + (b + (w2 + ([m] + c))));
    CollapseRun(w1, b + (w2 + ([m] + c)));
    CollapseWord(b, w2 + ([m] + c));
    CollapseRun(w2, [m] + c);
    CollapseOfWord([m] + c);
  }

  lemma DropStage(a: string, b: string, m: char, c: string)
    requires PlainWord(a) && PlainWord(b) && PlainWord(c) && IsMark(m)
    ensures DropSpaceBeforeMarks(a + (" " + (b + (" " + ([m] + c))))) == a + (" " + (b + ([m] + c)))
  {
    assert NoWhitespace(a) && NoWhitespace(b) && NoWhitespace(c);
    DropWord(a, " " + (b + (" " + ([m] + c))));
    DropSpaceBeforeWord(b + (" " + ([m] + c)));
    DropWord(b, " " + ([m] + c));
    DropRunBeforeMark(" ", m, c);
    DropOfWord(c);
  }

  lemma DropOfWord(a: string)
    requires NoWhitespace(a)
    ensures DropSpaceBeforeMarks(a) == a
  {
    DropWord(a, []);
    assert a + [] == a;
  }

  /** The rest of the pipeline leaves `a + " " + b + [m] + c` unchanged. */
  lemma CleanWordsTail(a: string, b: string, m: char, c: string)
    requires PlainWord(a) && PlainWord(b) && PlainWord(c) && IsMark(m)
    ensures var x2 := a + (" " + (b + ([m] + c)));
            Strip(FixWordSpacingIssues(x2)) == x2
  {
    var x2 := a + (" " + (b + ([m] + c)));
    WordsHaveNoDigit(a, b, m, c);
    NoDigitNoPair(x2);
    SeparateOfNoPair(x2, LetterThenDigit);
    SeparateOfNoPair(x2, DigitThenLetter);
    CollapseOfWords(a, b, m, c);
    assert x2[0] == a[0] && x2[|x2| - 1] == c[|c| - 1];
    StripOfStripped(x2);
  }

  lemma WordsHaveNoDigit(a: string, b: string, m: char, c: string)
    requires PlainWord(a) && PlainWord(b) && PlainWord(c) && IsMark(m)
    ensures NoDigit(a + (" " + (b + ([m] + c))))
  {
    assert NoDigit(a) && NoDigit(" ") && NoDigit(b) && NoDigit([m] + c);
    NoDigitAppend(b, [m] + c);
    NoDigitAppend(" ", b + ([m] + c));
    NoDigitAppend(a, " " + (b + ([m] + c)));
  }

  lemma CollapseOfWords(a: string, b: string, m: char, c: string)
    requires PlainWord(a) && PlainWord(b) && PlainWord(c) && IsMark(m)
    ensures Collapse(a + (" " + (b + ([m] + c)))) == a + (" " + (b + ([m] + c)))
  {
    assert NoWhitespace(a) && NoWhitespace(b) && NoWhitespace([m] + c);
    CollapseWord(a, " " + (b + ([m] + c)));
    CollapseRun(" ", b + ([m] + c));
    CollapseWord(b, [m] + c);
    CollapseOfWord([m] + c);
  }

  /** `"hello  world ,ok"` cleans to `"hello world,ok"`. */
  lemma HelloWorldCleaned()
    ensures CleanText("hello" + "  " + "world" + " " + [','] + "ok") == "hello" + " " + "world" + [','] + "ok"
  {
    assert PlainWord("hello") && PlainWord("world") && PlainWord("ok");
    CleanTextSpacesAndMark("hello", "  ", "world", " ", ',', "ok");
  }

  /** A kept word is a dict word with a string text whose cleaning is not empty; only that text changes. */
  lemma CleanedWordSpec(w: Json)
    ensures var c := CleanedWord(w);
            c.Some? <==> (w.JObject? && "text" in w.fields && w.fields["text"].JStr? && CleanText(w.fields["text"].s) != "")
    ensures var c := CleanedWord(w);
            c.Some? ==>
              c.value.JObject? && c.value.fields.Keys == w.fields.Keys
              && (forall k :: k in w.fields && k != "text" ==> c.value.fields[k] == w.fields[k])
              && c.value.fields["text"] == JStr(CleanText(w.fields["text"].s))
  {
  }

  /** What the cleaning makes of each word, kept or not. */
  function Cleanings(ws: seq<Json>): (r: seq<Option<Json>>)
    ensures |r| == |ws| && forall i :: 0 <= i < |ws| ==> r[i] == CleanedWord(ws[i])
  {
    MapSeq(CleanedWord, ws)
  }

  lemma CleanedWordsSnoc(ws: seq<Json>)
    requires ws != []
    ensures CleanedWords(ws) == CleanedWords(ws[..|ws| - 1]) + OptionList(CleanedWord(ws[|ws| - 1]))
  {
  }

  lemma {:induction false} CleanedWordsAreSomes(ws: seq<Json>)
    ensures CleanedWords(ws) == Somes(Cleanings(ws))
    decreases |ws|
  {
    if ws != [] {
      var front := ws[..|ws| - 1];
      CleanedWordsAreSomes(front);
      var os := Cleanings(ws);
      MapSeqFront(CleanedWord, ws);
      SomesSnoc(os);
      CleanedWordsSnoc(ws);
    }
  }

  /**
   * The kept words are, in order and each once, the cleanings of exactly the words whose
   * cleaning keeps them: the k-th kept word comes from position `idx[k]`, the positions
   * increase, and every position whose word is kept is among them.
   */
  lemma CleanedWordsInOrder(ws: seq<Json>)
    ensures var r, idx := CleanedWords(ws), SomePositions(Cleanings(ws));
            |idx| == |r|
            && (forall k :: 0 <= k < |idx| ==> idx[k] < |ws| && CleanedWord(ws[idx[k]]) == Some(r[k]))
            && (forall k, l :: 0 <= k < l < |idx| ==> idx[k] < idx[l])
            && (forall i :: 0 <= i < |ws| && CleanedWord(ws[i]).Some? ==> i in idx)
  {
    var os := Cleanings(ws);
    CleanedWordsAreSomes(ws);
    SomePositionsMatch(os);
    SomePositionsOrdered(os);
    SomePositionsComplete(os);
  }

  function JoinedSegments(segs: seq<seq<Json>>): seq<Json>
    decreases |segs|
  {
    if segs == [] then [] else JoinedSegments(segs[..|segs| - 1]) + segs[|segs| - 1]
  }

  lemma CleanedWordsAppend(a: seq<Json>, b: seq<Json>)
    ensures CleanedWords(a + b) == CleanedWords(a) + CleanedWords(b)
  {
    CleanedWordsAreSomes(a + b);
    CleanedWordsAreSomes(a);
    CleanedWordsAreSomes(b);
    CleaningsAppend(a, b);
    SomesAppend(Cleanings(a), Cleanings(b));
  }

  lemma CleaningsAppend(a: seq<Json>, b: seq<Json>)
    ensures Cleanings(a + b) == Cleanings(a) + Cleanings(b)
  {
    MapSeqAppend(CleanedWord, a, b);
  }

  /**
   * No segment of the result is empty, none is made out of nothing, and together they hold
   * exactly the words the word cleaning keeps, in order: segments are neither merged nor split.
   */
  lemma {:induction false} CleanedSegmentsSpec(segs: seq<seq<Json>>)
    ensures var r := CleanedSegments(segs);
            (forall k :: 0 <= k < |r| ==> r[k] != []) && |r| <= |segs|
            && JoinedSegments(r) == CleanedWords(JoinedSegments(segs))
    decreases |segs|
  {
    if segs != [] {
      var front := segs[..|segs| - 1];
      var last := segs[|segs| - 1];
      CleanedSegmentsSpec(front);
      var r0 := CleanedSegments(front);
      var ws := CleanedWords(last);
      CleanedWordsAppend(JoinedSegments(front), last);
      if ws != [] {
        var r := r0 + [ws];
        assert CleanedSegments(segs) == r;
        assert r[..|r| - 1] == r0;
      }
    }
  }
}
