/**
 * `segment_transcription` (aligner.py:340-412): validate the transcription, pick the
 * language, run the pipeline, and turn every segment into a `{speaker, start, end, text}`
 * record.
 */
module Transcription {
  import opened Wrappers
  import opened PyStr
  import opened Words
  import opened JsonData
  import opened Sentences
  import opened Language
  import opened Pipeline

  /** The exceptions the function can raise. */
  datatype Error =
    | ValueError(message: string)
    | TypeError
    | AttributeError
    /** A word whose `speaker_id` is not a string: the model's words carry string ids. */
    | UnsupportedSpeaker

  const NotADict: string := "transcription must be a dict or file path"
  const MissingWords: string := "transcription missing required 'words' list"
  const MissingFields: string := "each word must contain text, start, end and speaker_id"

  datatype Record = Record(speaker: string, start: real, end: real, text: string)

  // ----- validation (aligner.py:373-385) -----

  /** A path is loaded; a dict is used as given; anything else is rejected. */
  function Loaded(transcription: Json, load: string -> Json): Result<Json, Error> {
    match transcription
    case JStr(path) => Ok(load(path))
    case JObject(_) => Ok(transcription)
    case _ => Err(ValueError(NotADict))
  }

  /**
   * `"words" not in t or not isinstance(t["words"], list)`, then `t["words"]`. On a loaded
   * value that is not a dict, `in` is a list membership or substring test, and indexing
   * with `"words"` fails; on `None`, a bool or a number `in` itself fails.
   */
  function WordsList(t: Json): Result<(map<string, Json>, seq<Json>), Error> {
    match t
    case JObject(f) =>
      if "words" in f && f["words"].JList? then Ok((f, f["words"].items)) else Err(ValueError(MissingWords))
    case JList(items) => if JStr("words") in items then Err(TypeError) else Err(ValueError(MissingWords))
    case JStr(s) => if Contains(s, "words") then Err(TypeError) else Err(ValueError(MissingWords))
    case _ => Err(TypeError)
  }

  predicate HasRequiredKeys(f: map<string, Json>) {
    "text" in f && "start" in f && "end" in f && "speaker_id" in f
  }

  predicate Unhashable(v: Json) {
    v.JList? || v.JObject?
  }

  /**
   * `{"text", "start", "end", "speaker_id"}.issubset(w)`: over a dict's keys, a list's
   * elements (hashing every one of them) or a string's characters; other values are not
   * iterable.
   */
  function HasFields(w: Json): Result<bool, Error> {
    match w
    case JObject(f) => Ok(HasRequiredKeys(f))
    case JList(items) =>
      if exists i | 0 <= i < |items| :: Unhashable(items[i]) then Err(TypeError)
      else Ok(JStr("text") in items && JStr("start") in items && JStr("end") in items && JStr("speaker_id") in items)
    case JStr(_) => Ok(false)
    case _ => Err(TypeError)
  }

  /** The error of the first word that fails the check, if any. */
  function CheckWords(ws: seq<Json>): Option<Error>
    decreases |ws|
  {
    if ws == [] then None
    else match HasFields(ws[0])
      case Err(e) => Some(e)
      case Ok(false) => Some(ValueError(MissingFields))
      case Ok(true) => CheckWords(ws[1..])
  }

  // ----- the language (aligner.py:387 and 324) -----

  /** `language_code or transcription.get("language_code", "eng")`. */
  function LanguageValue(languageCode: Option<string>, f: map<string, Json>): Json {
    if languageCode.Some? && languageCode.value != "" then JStr(languageCode.value)
    else if "language_code" in f then f["language_code"]
    else JStr("eng")
  }

  /** `normalize_language_code` on a JSON value: falsy values default, non-strings have no `lower`. */
  function NormalizeLanguageValue(v: Json): Result<string, Error> {
    if !Truthy(v) then Ok("eng")
    else if v.JStr? then Ok(NormalizeLanguageCode(v.s))
    else Err(AttributeError)
  }

  // ----- the words the pipeline reads -----

  /** A word as the pipeline uses it: text joined as a string, times in arithmetic (a bool counts as 0 or 1). */
  function ToWord(w: Json): Result<Word, Error> {
    if w.JObject? && HasRequiredKeys(w.fields) then
      var f := w.fields;
      var start := AsNumber(f["start"]);
      var end := AsNumber(f["end"]);
      if !f["text"].JStr? || start.None? || end.None? then Err(TypeError)
      else if !f["speaker_id"].JStr? then Err(UnsupportedSpeaker)
      else Ok(Word(f["text"].s, start.value, end.value, f["speaker_id"].s))
    else Err(TypeError)
  }

  function ToWords(ws: seq<Json>): Result<seq<Word>, Error>
    decreases |ws|
  {
    if ws == [] then Ok([])
    else match ToWord(ws[0])
      case Err(e) => Err(e)
      case Ok(w) => match ToWords(ws[1..])
        case Err(e) => Err(e)
        case Ok(rest) => Ok([w] + rest)
  }

  // ----- the records (aligner.py:398-410) -----

  function SpeakerLabel(speakerId: string, speakerBrackets: bool): string {
    if speakerBrackets then "- [" + speakerId + "]" else speakerId
  }

  function SegmentRecord(seg: Segment, speakerBrackets: bool): Record
    requires seg != []
  {
    Record(SpeakerLabel(seg[0].speakerId, speakerBrackets), seg[0].start, seg[|seg| - 1].end, SpaceJoined(seg))
  }

  function Records(segs: seq<Segment>, speakerBrackets: bool): seq<Record>
    requires AllNonEmpty(segs)
    decreases |segs|
  {
    if segs == [] then []
    else Records(segs[..|segs| - 1], speakerBrackets) + [SegmentRecord(segs[|segs| - 1], speakerBrackets)]
  }

  /** What `segment_transcription` returns or raises. */
  function SegmentTranscriptionSpec(tools: SentenceTools, transcription: Json, load: string -> Json,
                                    bigPauseSeconds: real, minWordsInSegment: int, maxDuration: real,
                                    languageCode: Option<string>, speakerBrackets: bool,
                                    skipPunctuationOnly: bool): Result<seq<Record>, Error>
  {
    match Loaded(transcription, load)
    case Err(e) => Err(e)
    case Ok(t) =>
      match WordsList(t)
      case Err(e) => Err(e)
      case Ok((f, ws)) =>
        if CheckWords(ws).Some? then Err(CheckWords(ws).value)
        else match NormalizeLanguageValue(LanguageValue(languageCode, f))
          case Err(e) => Err(e)
          case Ok(_) =>
            match ToWords(ws)
            case Err(e) => Err(e)
            case Ok(words) =>
              var grouped := GroupedSegments(tools, words, maxDuration, bigPauseSeconds, minWordsInSegment, skipPunctuationOnly);
              GroupedSegmentsConserve(tools, words, maxDuration, bigPauseSeconds, minWordsInSegment, skipPunctuationOnly);
              Ok(Records(grouped, speakerBrackets))
  }

  method SegmentTranscription(tools: SentenceTools, transcription: Json, load: string -> Json,
                              bigPauseSeconds: real, minWordsInSegment: int, maxDuration: real,
                              languageCode: Option<string>, speakerBrackets: bool, skipPunctuationOnly: bool)
    returns (result: Result<seq<Record>, Error>)
    ensures result == SegmentTranscriptionSpec(tools, transcription, load, bigPauseSeconds, minWordsInSegment,
                                               maxDuration, languageCode, speakerBrackets, skipPunctuationOnly)
  {
    var loaded := Loaded(transcription, load);
    if loaded.Err? {
      return Err(loaded.error);
    }
    var listed := WordsList(loaded.value);
    if listed.Err? {
      return Err(listed.error);
    }
    var (f, words) := listed.value;
    var failure := ValidateWords(words);
    if failure.Some? {
      return Err(failure.value);
    }
    var lang := NormalizeLanguageValue(LanguageValue(languageCode, f));
    if lang.Err? {
      return Err(lang.error);
    }
    var converted := ToWords(words);
    if converted.Err? {
      return Err(converted.error);
    }
    var grouped := GetGroupedSegments(tools, converted.value, lang.value, maxDuration, bigPauseSeconds,
                                      minWordsInSegment, skipPunctuationOnly);
    GroupedSegmentsConserve(tools, converted.value, maxDuration, bigPauseSeconds, minWordsInSegment, skipPunctuationOnly);
    var results := BuildRecords(grouped, speakerBrackets);
    return Ok(results);
  }

  /** The loop of aligner.py:383-385: the first word that fails the check raises. */
  method ValidateWords(words: seq<Json>) returns (failure: Option<Error>)
    ensures failure == CheckWords(words)
  {
    var i := 0;
    while i < |words|
      invariant 0 <= i <= |words|
      invariant CheckWords(words) == CheckWords(words[i..])
    {
      assert words[i..][0] == words[i] && words[i..][1..] == words[i + 1..];
      var ok := HasFields(words[i]);
      if ok.Err? {
        return Some(ok.error);
      }
      if !ok.value {
        return Some(ValueError(MissingFields));
      }
      i := i + 1;
    }
    return None;
  }

  /** The loop of aligner.py:398-410. */
  method BuildRecords(grouped: seq<Segment>, speakerBrackets: bool) returns (results: seq<Record>)
    requires AllNonEmpty(grouped)
    ensures results == Records(grouped, speakerBrackets)
  {
    results := [];
    var i := 0;
    while i < |grouped|
      invariant 0 <= i <= |grouped|
      invariant results == Records(grouped[..i], speakerBrackets)
    {
      var seg := grouped[i];
      assert grouped[..i + 1][..i] == grouped[..i];
      var speaker := seg[0].speakerId;
      if speakerBrackets {
        speaker := "- [" + speaker + "]";
      }
      results := results + [Record(speaker, seg[0].start, seg[|seg| - 1].end, SpaceJoined(seg))];
      i := i + 1;
    }
    assert grouped[..i] == grouped;
  }

  // ----- properties -----

  /** One record per segment: the first word's speaker (bracketed on request) and start, the last word's end, the space-joined texts. */
  lemma {:induction false} RecordsSpec(segs: seq<Segment>, speakerBrackets: bool)
    requires AllNonEmpty(segs)
    ensures var rs := Records(segs, speakerBrackets);
            |rs| == |segs|
            && forall i :: 0 <= i < |segs| ==>
                 rs[i].speaker == (if speakerBrackets then "- [" + segs[i][0].speakerId + "]" else segs[i][0].speakerId)
                 && rs[i].start == segs[i][0].start && rs[i].end == segs[i][|segs[i]| - 1].end
                 && rs[i].text == SpaceJoined(segs[i])
    decreases |segs|
  {
    if segs != [] {
      var front := segs[..|segs| - 1];
      assert AllNonEmpty(front) by {
        forall p | 0 <= p < |front| ensures front[p] != [] {
          assert front[p] == segs[p];
        }
      }
      RecordsSpec(front, speakerBrackets);
    }
  }

  /** Checking dict words: the first word without one of the four keys raises the ValueError. */
  lemma {:induction false} CheckObjectWords(ws: seq<Json>)
    requires forall i :: 0 <= i < |ws| ==> ws[i].JObject?
    ensures CheckWords(ws) == None <==> forall i :: 0 <= i < |ws| ==> HasRequiredKeys(ws[i].fields)
    ensures CheckWords(ws) != None ==> CheckWords(ws) == Some(ValueError(MissingFields))
    decreases |ws|
  {
    if ws != [] {
      CheckObjectWords(ws[1..]);
      if HasRequiredKeys(ws[0].fields) {
        forall i | 0 <= i < |ws| && (forall k :: 0 <= k < |ws[1..]| ==> HasRequiredKeys(ws[1..][k].fields))
          ensures HasRequiredKeys(ws[i].fields)
        {
          if i > 0 {
            assert ws[i] == ws[1..][i - 1];
          }
        }
        forall k | 0 <= k < |ws[1..]| && (forall i :: 0 <= i < |ws| ==> HasRequiredKeys(ws[i].fields))
          ensures HasRequiredKeys(ws[1..][k].fields)
        {
          assert ws[1..][k] == ws[k + 1];
        }
      }
    }
  }

  /** A word as the model accepts it: a dict with a string text, numeric times and a string speaker id. */
  predicate WellFormedWord(w: Json) {
    w.JObject? && HasRequiredKeys(w.fields) && w.fields["text"].JStr? && AsNumber(w.fields["start"]).Some?
    && AsNumber(w.fields["end"]).Some? && w.fields["speaker_id"].JStr?
  }

  /** Conversion succeeds exactly on well-formed words, and keeps their order and values. */
  lemma {:induction false} ToWordsSpec(ws: seq<Json>)
    ensures ToWords(ws).Ok? <==> forall i :: 0 <= i < |ws| ==> WellFormedWord(ws[i])
    ensures ToWords(ws).Ok? ==>
              |ToWords(ws).value| == |ws|
              && forall i :: 0 <= i < |ws| ==>
                   var w := ToWords(ws).value[i];
                   var f := ws[i].fields;
                   w.text == f["text"].s && w.start == AsNumber(f["start"]).value
                   && w.end == AsNumber(f["end"]).value && w.speakerId == f["speaker_id"].s
    decreases |ws|
  {
    if ws != [] {
      ToWordsSpec(ws[1..]);
      forall i | 1 <= i < |ws| ensures ws[i] == ws[1..][i - 1] {
      }
    }
  }

  /**
   * The three ValueErrors: a transcription that is neither a dict nor a path, a dict with
   * no `words` list, and a dict of dict words one of which lacks a required key. None of
   * them depends on the tokenizer or the parameters: they come before any grouping.
   */
  lemma RaisesValueErrors(tools: SentenceTools, transcription: Json, load: string -> Json,
                          bigPauseSeconds: real, minWordsInSegment: int, maxDuration: real,
                          languageCode: Option<string>, speakerBrackets: bool, skipPunctuationOnly: bool)
    ensures !transcription.JStr? && !transcription.JObject? ==>
              SegmentTranscriptionSpec(tools, transcription, load, bigPauseSeconds, minWordsInSegment, maxDuration,
                                       languageCode, speakerBrackets, skipPunctuationOnly) == Err(ValueError(NotADict))
    ensures transcription.JObject? && !("words" in transcription.fields && transcription.fields["words"].JList?) ==>
              SegmentTranscriptionSpec(tools, transcription, load, bigPauseSeconds, minWordsInSegment, maxDuration,
                                       languageCode, speakerBrackets, skipPunctuationOnly) == Err(ValueError(MissingWords))
    ensures transcription.JObject? && "words" in transcription.fields && transcription.fields["words"].JList?
            && (forall i :: 0 <= i < |transcription.fields["words"].items| ==> transcription.fields["words"].items[i].JObject?)
            && (exists i :: 0 <= i < |transcription.fields["words"].items|
                  && !HasRequiredKeys(transcription.fields["words"].items[i].fields)) ==>
              SegmentTranscriptionSpec(tools, transcription, load, bigPauseSeconds, minWordsInSegment, maxDuration,
                                       languageCode, speakerBrackets, skipPunctuationOnly) == Err(ValueError(MissingFields))
  {
    if transcription.JObject? && "words" in transcription.fields && transcription.fields["words"].JList? {
      var ws := transcription.fields["words"].items;
      if forall i :: 0 <= i < |ws| ==> ws[i].JObject? {
        CheckObjectWords(ws);
      }
    }
  }

  /**
   * A dict of well-formed words with a usable language gives one record per grouped
   * segment, and no record exactly when there are no words.
   */
  lemma SucceedsOnWellFormed(tools: SentenceTools, f: map<string, Json>, load: string -> Json,
                             bigPauseSeconds: real, minWordsInSegment: int, maxDuration: real,
                             languageCode: Option<string>, speakerBrackets: bool, skipPunctuationOnly: bool)
    requires "words" in f && f["words"].JList?
    requires forall i :: 0 <= i < |f["words"].items| ==> WellFormedWord(f["words"].items[i])
    requires NormalizeLanguageValue(LanguageValue(languageCode, f)).Ok?
    ensures var r := SegmentTranscriptionSpec(tools, JObject(f), load, bigPauseSeconds, minWordsInSegment, maxDuration,
                                              languageCode, speakerBrackets, skipPunctuationOnly);
            r.Ok? && |r.value| <= |f["words"].items| && (r.value == [] <==> f["words"].items == [])
  {
    var ws := f["words"].items;
    CheckObjectWords(ws);
    ToWordsSpec(ws);
    var words := ToWords(ws).value;
    SpecOnWellFormed(tools, f, load, bigPauseSeconds, minWordsInSegment, maxDuration, languageCode, speakerBrackets,
                     skipPunctuationOnly, words);
    var grouped := GroupedSegments(tools, words, maxDuration, bigPauseSeconds, minWordsInSegment, skipPunctuationOnly);
    GroupedSegmentsConserve(tools, words, maxDuration, bigPauseSeconds, minWordsInSegment, skipPunctuationOnly);
    RecordCount(grouped, words, speakerBrackets);
  }

  /** Past every check, the result is the records of the grouped segments. */
  lemma SpecOnWellFormed(tools: SentenceTools, f: map<string, Json>, load: string -> Json,
                         bigPauseSeconds: real, minWordsInSegment: int, maxDuration: real,
                         languageCode: Option<string>, speakerBrackets: bool, skipPunctuationOnly: bool,
                         words: seq<Word>)
    requires "words" in f && f["words"].JList? && CheckWords(f["words"].items) == None
    requires NormalizeLanguageValue(LanguageValue(languageCode, f)).Ok?
    requires ToWords(f["words"].items) == Ok(words)
    ensures var grouped := GroupedSegments(tools, words, maxDuration, bigPauseSeconds, minWordsInSegment, skipPunctuationOnly);
            AllNonEmpty(grouped)
            && SegmentTranscriptionSpec(tools, JObject(f), load, bigPauseSeconds, minWordsInSegment, maxDuration,
                                        languageCode, speakerBrackets, skipPunctuationOnly)
               == Ok(Records(grouped, speakerBrackets))
  {
    GroupedSegmentsConserve(tools, words, maxDuration, bigPauseSeconds, minWordsInSegment, skipPunctuationOnly);
  }

  /** At most one record per word, and none exactly when there are no words. */
  lemma RecordCount(grouped: seq<Segment>, words: seq<Word>, speakerBrackets: bool)
    requires Flatten(grouped) == words && AllNonEmpty(grouped) && (grouped == [] <==> words == [])
    ensures |Records(grouped, speakerBrackets)| <= |words|
    ensures Records(grouped, speakerBrackets) == [] <==> words == []
  {
    RecordsSpec(grouped, speakerBrackets);
    FlattenLength(grouped);
  }
}
