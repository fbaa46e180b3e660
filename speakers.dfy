/**
 * `normalize_speaker_id` (save_as_srt.py:51-83): an id such as `spk_0`, `speaker_1` or
 * `SPK3` becomes `"Speaker N"`. The id is lowered, the first listed prefix it starts with
 * is cut off, and the first run of digits left gives N; ids written `speaker_<n>` count
 * from 0, so 1 is added, and other ids that give 0 are mapped to 1.
 */
module Speakers {
  import opened Wrappers
  import opened PyStr

  /** In this order; `"speaker_"` and `"spk_"` are never reached, as a shorter listed prefix of theirs comes first. */
  const SpeakerPrefixes: seq<string> := ["spk", "speaker", "speaker_", "spk_"]

  /** The loop over the prefixes with `break`: the first prefix `s` starts with is removed. */
  function CutFirstPrefix(s: string, prefixes: seq<string>): (r: string)
    ensures |r| <= |s| && r == s[|s| - |r|..]
    ensures (forall k :: 0 <= k < |prefixes| ==> !StartsWith(s, prefixes[k])) ==> r == s
    decreases |prefixes|
  {
    if prefixes == [] then s
    else if StartsWith(s, prefixes[0]) then s[|prefixes[0]|..]
    else
      assert forall k :: 1 <= k < |prefixes| ==> prefixes[k] == prefixes[1..][k - 1];
      CutFirstPrefix(s, prefixes[1..])
  }

  function SpeakerName(n: nat): string {
    "Speaker " + NatToString(n)
  }

  /** The N of `"Speaker N"`: the first digit run after the prefix, adjusted, and 1 when there is none. */
  function SpeakerNumber(speakerId: string): (n: nat)
    ensures 1 <= n
  {
    if speakerId == "" then 1
    else
      var cleaned := CutFirstPrefix(Lower(speakerId), SpeakerPrefixes);
      match FirstDigitRun(cleaned)
      case None => 1
      case Some((i, j)) =>
        var num := DigitsValue(cleaned[i..j]);
        if StartsWith(Lower(speakerId), "speaker_") then num + 1
        else if num == 0 then 1
        else num
  }

  function NormalizeSpeakerId(speakerId: string): string {
    SpeakerName(SpeakerNumber(speakerId))
  }

  // ----- properties -----

  /** An empty id and an id without a digit are both speaker 1. */
  lemma WithoutDigitsIsSpeakerOne(speakerId: string)
    requires forall k :: 0 <= k < |speakerId| ==> !IsAsciiDigit(speakerId[k])
    ensures NormalizeSpeakerId(speakerId) == "Speaker 1"
  {
    WithoutDigitsNumberOne(speakerId);
    assert NatToString(1) == "1";
  }

  lemma WithoutDigitsNumberOne(speakerId: string)
    requires forall k :: 0 <= k < |speakerId| ==> !IsAsciiDigit(speakerId[k])
    ensures SpeakerNumber(speakerId) == 1
  {
    if speakerId != "" {
      var cleaned := CutFirstPrefix(Lower(speakerId), SpeakerPrefixes);
      CutKeepsNoDigits(speakerId, cleaned);
      assert FirstDigitRun(cleaned).None?;
    }
  }

  /** A suffix of the lowered id has no digit when the id has none. */
  lemma CutKeepsNoDigits(speakerId: string, cleaned: string)
    requires forall k :: 0 <= k < |speakerId| ==> !IsAsciiDigit(speakerId[k])
    requires |cleaned| <= |speakerId| && cleaned == Lower(speakerId)[|speakerId| - |cleaned|..]
    ensures forall k :: 0 <= k < |cleaned| ==> !IsAsciiDigit(cleaned[k])
  {
    var lowered := Lower(speakerId);
    forall k | 0 <= k < |cleaned| ensures !IsAsciiDigit(cleaned[k]) {
      assert cleaned[k] == lowered[|lowered| - |cleaned| + k];
      assert lowered[|lowered| - |cleaned| + k] == LowerChar(speakerId[|lowered| - |cleaned| + k]);
    }
  }

  /** The digits right after one character that is not a digit form the first digit run, whole. */
  lemma DigitRunAfter(c: char, digits: string)
    requires !IsAsciiDigit(c) && digits != [] && AllDigits(digits)
    ensures FirstDigitRun([c] + digits) == Some((1, 1 + |digits|))
    ensures ([c] + digits)[1..1 + |digits|] == digits
  {
    var s := [c] + digits;
    assert s[1..] == digits;
    assert FirstDigitPos(s) == 1 + FirstDigitPos(digits);
    assert DigitRunLength(s[1..]) == |digits|;
  }

  /** Lowering a string whose tail `digits` is digits lowers only its head. */
  lemma LowerThenDigits(p: string, digits: string)
    requires AllDigits(digits)
    ensures Lower(p + digits) == Lower(p) + digits
  {
    assert forall k :: 0 <= k < |digits| ==> (p + digits)[|p| + k] == digits[k];
  }

  /** A string that differs from `t` somewhere within `t`'s length does not start with it. */
  lemma DiffersAt(s: string, t: string, k: nat)
    requires k < |s| && k < |t| && s[k] != t[k]
    ensures !StartsWith(s, t)
  {
    if |t| <= |s| {
      assert s[..|t|][k] == s[k];
    }
  }

  /** The 0-based form, in any case: `speaker_<n>` is speaker n + 1, so `speaker_0` is `Speaker 1`. */
  lemma ZeroBasedIds(p: string, n: nat)
    requires Lower(p) == "speaker_"
    ensures NormalizeSpeakerId(p + NatToString(n)) == SpeakerName(n + 1)
  {
    var digits := NatToString(n);
    LowerThenDigits(p, digits);
    SpeakerUnderscoreForm(digits);
    DigitRunAfter('_', digits);
    DigitsValueOfNatToString(n);
    NumberOfRun(p + digits, ['_'] + digits, 1, 1 + |digits|);
  }

  /** With the prefix cut and a digit run found, the number is that run's value, adjusted. */
  lemma NumberOfRun(id: string, cleaned: string, i: nat, j: nat)
    requires id != "" && CutFirstPrefix(Lower(id), SpeakerPrefixes) == cleaned
    requires FirstDigitRun(cleaned) == Some((i, j))
    ensures var num := DigitsValue(cleaned[i..j]);
            SpeakerNumber(id) == if StartsWith(Lower(id), "speaker_") then num + 1 else if num == 0 then 1 else num
  {
  }

  /** `speaker_<digits>` is not an `spk` id, and cutting the prefix `speaker` leaves `_<digits>`. */
  lemma SpeakerUnderscoreForm(digits: string)
    ensures var lowered := "speaker_" + digits;
            !StartsWith(lowered, "spk") && StartsWith(lowered, "speaker") && StartsWith(lowered, "speaker_")
            && CutFirstPrefix(lowered, SpeakerPrefixes) == ['_'] + digits
  {
    var lowered := "speaker_" + digits;
    assert !StartsWith(lowered, "spk") by {
      assert lowered[..3] == "spe";
    }
    assert StartsWith(lowered, "speaker") by {
      assert lowered[..7] == "speaker";
    }
    assert StartsWith(lowered, "speaker_") by {
      assert lowered[..8] == "speaker_";
    }
    assert CutFirstPrefix(lowered, SpeakerPrefixes) == ['_'] + digits;
  }

  /** Other ids count from 1: `spk_<n>` is speaker n, except that `spk_0` is speaker 1 too. */
  lemma OneBasedIds(p: string, n: nat)
    requires Lower(p) == "spk_"
    ensures NormalizeSpeakerId(p + NatToString(n)) == SpeakerName(if n == 0 then 1 else n)
  {
    var digits := NatToString(n);
    LowerThenDigits(p, digits);
    SpkUnderscoreForm(digits);
    DigitRunAfter('_', digits);
    DigitsValueOfNatToString(n);
    NumberOfRun(p + digits, ['_'] + digits, 1, 1 + |digits|);
  }

  /** `spk_<digits>` is not a `speaker_` id, and cutting the prefix `spk` leaves `_<digits>`. */
  lemma SpkUnderscoreForm(digits: string)
    ensures var lowered := "spk_" + digits;
            !StartsWith(lowered, "speaker_") && CutFirstPrefix(lowered, SpeakerPrefixes) == ['_'] + digits
  {
    var lowered := "spk_" + digits;
    assert StartsWith(lowered, "spk") by {
      assert lowered[..3] == "spk";
    }
    DiffersAt(lowered, "speaker_", 2);
    assert CutFirstPrefix(lowered, SpeakerPrefixes) == ['_'] + digits;
  }

  /** Whatever the id, the result is `"Speaker k"` for some k of at least 1. */
  lemma NormalizedIsSpeakerName(speakerId: string)
    ensures exists k: nat :: 1 <= k && NormalizeSpeakerId(speakerId) == SpeakerName(k)
  {
    var k := SpeakerNumber(speakerId);
    assert 1 <= k && NormalizeSpeakerId(speakerId) == SpeakerName(k);
  }

  /** A normalized name `"Speaker k"`, k at least 1, is left as it is. */
  lemma SpeakerNameIsFixed(k: nat)
    requires 1 <= k
    ensures NormalizeSpeakerId(SpeakerName(k)) == SpeakerName(k)
  {
    var digits := NatToString(k);
    var id := SpeakerName(k);
    assert id == "Speaker " + digits;
    LowerThenDigits("Speaker ", digits);
    var lowered := Lower(id);
    assert Lower("Speaker ") == "speaker ";
    assert lowered == "speaker " + digits;
    assert !StartsWith(lowered, "spk") by {
      assert lowered[..3] == "spe";
    }
    assert StartsWith(lowered, "speaker") by {
      assert lowered[..7] == "speaker";
    }
    var cleaned := CutFirstPrefix(lowered, SpeakerPrefixes);
    assert cleaned == [' '] + digits;
    DigitRunAfter(' ', digits);
    DigitsValueOfNatToString(k);
    DiffersAt(lowered, "speaker_", 7);
  }

  /** Normalizing twice is normalizing once. */
  lemma NormalizeSpeakerIdempotent(speakerId: string)
    ensures NormalizeSpeakerId(NormalizeSpeakerId(speakerId)) == NormalizeSpeakerId(speakerId)
  {
    NormalizedIsSpeakerName(speakerId);
    var k: nat :| 1 <= k && NormalizeSpeakerId(speakerId) == SpeakerName(k);
    SpeakerNameIsFixed(k);
  }
}
