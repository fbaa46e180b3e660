/** `ISO1_TO_ISO3` and `normalize_language_code` (aligner.py:20-60). */
module Language {
  import opened PyStr

  /** The twenty ISO 639-1 codes the aligner knows, with their ISO 639-3 codes. */
  const Iso1ToIso3: map<string, string> := map[
    "en" := "eng", "es" := "spa", "pt" := "por", "fr" := "fra", "de" := "deu",
    "it" := "ita", "nl" := "nld", "zh" := "cmn", "ko" := "kor", "ar" := "ara",
    "hi" := "hin", "bn" := "ben", "ta" := "tam", "te" := "tel", "mr" := "mar",
    "gu" := "guj", "kn" := "kan", "pa" := "pan", "ml" := "mal", "ur" := "urd"]

  const DefaultLanguage: string := "eng"

  /**
   * An empty code gives `"eng"`; otherwise the code is lowered, and a two-letter code is
   * looked up (`"eng"` when unknown) while any other length is returned as lowered.
   */
  function NormalizeLanguageCode(code: string): string {
    if code == "" then DefaultLanguage
    else
      var lowered := Lower(code);
      if |lowered| == 2 then (if lowered in Iso1ToIso3 then Iso1ToIso3[lowered] else DefaultLanguage)
      else lowered
  }

  predicate NoUpper(s: string) {
    forall i :: 0 <= i < |s| ==> !IsAsciiUpper(s[i])
  }

  lemma LowerOfNoUpper(s: string)
    requires NoUpper(s)
    ensures Lower(s) == s
  {
  }

  lemma LowerHasNoUpper(s: string)
    ensures NoUpper(Lower(s))
  {
  }

  /** Every ISO 639-3 code of the table is three lower-case letters. */
  lemma TableValues()
    ensures forall k :: k in Iso1ToIso3 ==> |Iso1ToIso3[k]| == 3 && NoUpper(Iso1ToIso3[k])
  {
  }

  /**
   * The three cases: an empty code defaults, a two-letter code is looked up without regard
   * to case, and a code of any other length comes back lowered and otherwise unchanged.
   */
  lemma NormalizeCases(code: string)
    ensures code == "" ==> NormalizeLanguageCode(code) == "eng"
    ensures |code| == 2 && Lower(code) in Iso1ToIso3 ==> NormalizeLanguageCode(code) == Iso1ToIso3[Lower(code)]
    ensures |code| == 2 && Lower(code) !in Iso1ToIso3 ==> NormalizeLanguageCode(code) == "eng"
    ensures |code| != 0 && |code| != 2 ==>
              |NormalizeLanguageCode(code)| == |code|
              && forall i :: 0 <= i < |code| ==> NormalizeLanguageCode(code)[i] == LowerChar(code[i])
  {
  }

  /** Upper and lower case spell the same code. */
  lemma NormalizeIgnoresCase(code: string)
    ensures NormalizeLanguageCode(Lower(code)) == NormalizeLanguageCode(code)
  {
    LowerIdempotent(code);
  }

  /** The result is never empty, never two letters long, and has no upper-case letter. */
  lemma NormalizeResult(code: string)
    ensures var r := NormalizeLanguageCode(code);
            r != "" && |r| != 2 && NoUpper(r)
  {
    TableValues();
    LowerHasNoUpper(code);
  }

  /** A normalized code is its own normal form. */
  lemma NormalizeIdempotent(code: string)
    ensures NormalizeLanguageCode(NormalizeLanguageCode(code)) == NormalizeLanguageCode(code)
  {
    var r := NormalizeLanguageCode(code);
    NormalizeResult(code);
    LowerOfNoUpper(r);
  }

  lemma NormalizeExamples()
    ensures NormalizeLanguageCode("EN") == "eng" && NormalizeLanguageCode("de") == "deu"
    ensures NormalizeLanguageCode("xx") == "eng" && NormalizeLanguageCode("SPA") == "spa"
  {
    assert Lower("EN") == "en";
    assert Lower("de") == "de";
    assert Lower("xx") == "xx";
    assert Lower("SPA") == "spa";
  }
}
