# Sentence-Segmentation-Aligner, modelled in Dafny

The aligner turns a flat list of recognised words into subtitle segments. Each word has a
text, a start and end time, and a speaker id. This project models three parts of it:

- **The segmentation pipeline of `aligner.py`.** `get_grouped_segments` runs four stages:
  - `initial_grouping` cuts at long pauses and speaker changes, then merges a short tail.
  - `split_long_segments_on_sentence` cuts segments that run over the maximum duration
    at sentence boundaries.
  - `merge_on_sentence_boundary` buffers words and emits completed sentences.
  - `merge_punctuation_only_segments` is optional. It appends punctuation-only segments to
    the previous segment.

  Around the pipeline, `normalize_language_code` maps language codes. The validation and
  record building of `segment_transcription` sit at its edge.
- **The cleaners of `save_as_srt.py`.** These are:
  - `normalize_speaker_id`;
  - `clean_text_spacing`, `expand_acronyms` and `fix_word_spacing_issues`;
  - `clean_transcription_data`;
  - the loop of `generate_srt_from_transcript` that cleans each word and each segment.
- **The meaningful-text filter of `subtitle_filters.py`.** `contains_meaningful_words` and
  `filter_aligner_segments`.

Each module of the model follows one function or one group of related functions:

| module | models |
|---|---|
| `Words` | the word record and the flattened word sequence |
| `Sentences` | the sentence tokenizer and the acronym protection |
| `Grouping` | `initial_grouping` |
| `Splitting` | `split_long_segments_on_sentence` |
| `Merging` | `merge_on_sentence_boundary` |
| `PunctMerge` | `merge_punctuation_only_segments` |
| `Pipeline` | the composition |
| `Transcription` | `segment_transcription` |
| `Speakers` | `normalize_speaker_id` |
| `TextCleaning` | the three text rewrites |
| `TranscriptCleaning` | the transcript cleaners |
| `SubtitleFilters` | the filter |

`PyStr`, `JsonData`, `Wrappers` and `Selection` hold the Python string operations, parsed
JSON values, `Option`/`Result`, and a generic "keep the `Some`s in order" helper.

How the source's operations are modelled:

- **Loops** over words and segments become methods with `while` loops. Each is proved equal
  to a specification function, and the properties are lemmas about that function.
- **The shared iterator** of the two word walks becomes a cut index `c`: the emitted words
  are `buf[..c]` and the remaining buffer is `buf[c..]`.
- **The tokenizer and the acronym helpers** are fields of a `SentenceTools` value. Every
  structural property is therefore proved for any tokenizer. `StandardTools` holds the
  concrete `simple_sentence_tokenize` and the acronym protect and restore functions, each
  modelled as a left-to-right scan of its regular expression.
- **`\s`** is the `str.isspace` set.
- **`\w`, `\d` and `lower()`** are ASCII.

## Where the code differs from its tests and docstrings

The model follows the code, not the tests or the docstrings. The one exception is time
arithmetic, which is exact here (see `Grouping.Breaks` under "## Left out").

- **The short-tail merge ignores speakers** (aligner.py:97-98). The tests
  `test_overlapping_speakers_not_combined` (test_aligner.py:52-119) and
  `test_rapid_speaker_alternation` (test_aligner.py:121-141) assert that every output
  segment has a single speaker. The code does not keep that promise.
  `GroupingExamples.AlternatingTailMixesSpeakers` shows the six alternating words of the
  second test ending in a segment with two speakers.
- **`merge_on_sentence_boundary` carries its buffer across input segments**
  (aligner.py:136). The same tests expect each merged segment to keep one speaker. Because
  the buffer is carried over, the merge can join words of different speakers and different
  pause groups, as `Merging.MergeWithoutSentences` and `MergingExamples.MergeJoinsSpeakers`
  show.
- **A dotted acronym blocks both sentence walks** (aligner.py:154 and 221-222). The walks
  compare the re-protected running text with the restored sentence, which still holds its
  periods. A sentence containing `B.M.W.` is therefore never matched. In the merge, the
  whole buffer is emitted, with the start of the next sentence
  (`Merging.DottedSentencesFlushBuffer`). A long segment whose first sentence holds one is
  not split at all (`Splitting.DottedFirstSentenceKeepsWhole`).
- **No title abbreviations are protected.** Only `B.M.W.`-style acronyms are protected, and
  the language code is never used by the tokenizer.
- **`fix_word_spacing_issues` separates both pairs.** Its docstring example says
  `meinem1er` becomes `meinem 1er`. The second substitution also separates the digit from
  the following letter, giving `meinem 1 er` (`TextCleaning.SpacingExample`).
- **The second punctuation substitution has nothing left to do** (save_as_srt.py:296-301).
  After whitespace before a mark is dropped, no two marks have whitespace between them, so
  the "remove space between punctuation" step is the identity
  (`TranscriptCleaning.JoinMarksAfterDrop`). On its own it would not remove every such
  space, because its matches do not overlap: `", , ,"` becomes `",, ,"`
  (`TranscriptCleaning.CommasNotAllJoined`).

## Model

| member | source | states |
|---|---|---|
| `Words.AccumulatedIsSpaceJoined` | aligner.py:146-152 | the punctuation-aware running text equals the space-joined tokenizer input when no word text is empty or a piece of `string.punctuation` |
| `Words.JoinsDiffer` | aligner.py:137-152 | the two joins disagree as soon as a word is punctuation: `Hello !` is given to the tokenizer, `Hello!` is accumulated |
| `PyStr.PunctuationTestsDiffer` | aligner.py:150 | the accumulator's substring test and the per-character test of aligner.py:248 differ: `?!` is all punctuation but not a substring of `string.punctuation`, while `""` and `./` are substrings |
| `PyStr.StripSpec` | aligner.py:18 | `strip()` removes only whitespace, only from the two ends, and leaves neither end on whitespace |
| `PyStr.StripIdempotent` | aligner.py:18 | stripping twice is stripping once |
| `PyStr.LowerIdempotent` | aligner.py:57 | lowering twice is lowering once |
| `PyStr.DigitsValueOfNatToString` | save_as_srt.py:70-72 | reading back the decimal digits of `n` gives `n` |
| `PyStr.ParseIntOfIntToString` | save_as_srt.py:128 | `int(str(i)) == i` for every integer, negative ones included |
| `JsonData.AsNumber` | aligner.py:87 | a value takes part in time arithmetic exactly when it is a number or a bool; a number gives its own value, `True` counts as 1 and `False` as 0 |
| `Sentences.TokenizeSentencesAreStripped` | aligner.py:15-18 | every sentence of `simple_sentence_tokenize` is non-empty and already stripped |
| `Sentences.TokenizeWithoutBoundary` | aligner.py:12-18 | text with no terminator followed by whitespace is one sentence, its strip, or none when it is blank |
| `Sentences.RegexSplitAtBoundary` | aligner.py:12-17 | a terminated piece, then whitespace, then more text, splits exactly after the piece, and the whitespace is consumed |
| `Sentences.PairRunSpec` | aligner.py:124 | the acronym scan takes exactly the letter-period pairs at the front and stops at the first position that is not one |
| `Sentences.ReplaceWithoutPeriods` | aligner.py:127-130 | text without a period is left unprotected |
| `Sentences.RestoreOfReplace` | aligner.py:127-133 | restoring undoes protecting for any text without an underscore of its own |
| `Sentences.ProtectedHasNoDottedAcronym` | aligner.py:124-130 | the protected text holds no run of two letter-period pairs anywhere: every run the pattern matches has had its periods replaced |
| `Sentences.DottedTargetNeverMatches` | aligner.py:154 | when the stripped target sentence holds a dotted acronym, the re-protected running text never equals it, whatever the words and the tokenizer |
| `Sentences.BmwIsDotted` | aligner.py:124 | `B.M.W.`, alone or after other words, is a run the acronym pattern matches |
| `Language.TableValues` | aligner.py:21-42 | every ISO 639-3 code of the table is three lower-case letters |
| `Language.NormalizeCases` | aligner.py:45-60 | an empty code gives `eng`; a two-letter code is looked up, ignoring case, with `eng` when unknown; any other length comes back lowered character by character |
| `Language.NormalizeIgnoresCase` | aligner.py:57-59 | upper and lower case spell the same code |
| `Language.NormalizeResult` | aligner.py:45-60 | the result is never empty, never two letters long, and has no upper-case letter |
| `Language.NormalizeIdempotent` | aligner.py:45-60 | normalizing a normalized code changes nothing |
| `Language.NormalizeExamples` | aligner.py:55-60 | `EN` is `eng`, `de` is `deu`, `xx` is `eng`, `SPA` is `spa` |
| `Grouping.InitialGrouping` | aligner.py:63-100 | the loop and the in-place tail merge compute the pause split followed by the tail merge |
| `Grouping.PauseSplitConserves` | aligner.py:83-94 | before the tail merge, the segments are non-empty and together are the input words in order |
| `Grouping.PauseSplitBoundaries` | aligner.py:85-94 | a segment starts exactly where the gap exceeds the pause or the speaker changes: never inside a segment, always between two |
| `Grouping.PauseSplitUnique` | aligner.py:85-94 | any non-empty segmentation of the words with exactly those boundaries is the one the loop builds |
| `Grouping.GroupWordsConserves` | aligner.py:80-100 | `initial_grouping` returns `[]` exactly on no words; otherwise its segments are non-empty and flatten to the words in order |
| `Grouping.TailMergeFires` | aligner.py:97-98 | the tail merge removes one segment exactly when the last segment is shorter than the minimum and is not the only one; otherwise nothing changes |
| `Grouping.GroupWordsSpeakers` | aligner.py:85-98 | every segment but the last has a single speaker |
| `Grouping.GroupWordsSpeakersWithoutMerge` | aligner.py:85-98 | with a minimum of at most one word, every segment has a single speaker |
| `GroupingExamples.TestWordsGroups` | test_aligner.py:11-32 | the eight test words group into `Hello world.`, `How are you?` and `I am fine.` |
| `GroupingExamples.AlternatingTailMixesSpeakers` | test_aligner.py:123-132 | the six alternating words form five segments, and the last one holds speakers A and B |
| `Merging.MergeOnSentenceBoundary` | aligner.py:103-163 | the segment loop with its carried buffer computes the specification of the stage |
| `Merging.TakeSentences` | aligner.py:144-158 | the word loop over the shared iterator returns `buffer[..c]` and leaves `buffer[c..]`, where `c` is the cut |
| `Merging.CutSpec` | aligner.py:148-155 | the cut is the first length at which the running text matches; a buffer that never matches is taken whole, and a non-empty buffer gives at least one word |
| `Merging.DottedTargetTakesWholeBuffer` | aligner.py:146-158 | a finalized text holding a dotted acronym is never reached, so the words taken are the whole buffer |
| `Merging.DottedSentencesFlushBuffer` | aligner.py:135-158 | when the complete sentences hold a dotted acronym, the whole buffer, incomplete last sentence included, is emitted and the next segment starts an empty buffer |
| `Merging.WholeCutFlushes` | aligner.py:141-158 | a cut that takes the whole buffer emits it and leaves the buffer empty |
| `Merging.MergeConserves` | aligner.py:135-161 | for any tokenizer and stop test, the output flattens to the initial buffer followed by the input's words |
| `Merging.MergeNonEmpty` | aligner.py:135-161 | from non-empty segments the merge makes only non-empty segments |
| `Merging.MergeCount` | aligner.py:135-161 | at most one output per input segment, plus one for the final buffer |
| `Merging.MergeWithoutSentences` | aligner.py:135-161 | while the buffer never holds two sentences, nothing is emitted until the end, when all the words come out as one segment |
| `Merging.MergeSpec` | aligner.py:103-163 | the stage keeps every word in order, makes at most one more segment than it is given, and from non-empty segments makes no empty one |
| `MergingExamples.OneSentence` | aligner.py:137-140 | a stripped text without periods or sentence boundaries is detected as one sentence by the concrete tokenizer |
| `MergingExamples.PairMergesWith` | aligner.py:135-161 | two one-word segments neither of whose buffers holds two sentences come out as one segment |
| `MergingExamples.MergeJoinsSpeakers` | aligner.py:135-161 | two plain words of different speakers come out as one segment that mixes the speakers |
| `Splitting.SplitLongSegmentsOnSentence` | aligner.py:166-230 | the stage loop computes the specification: short segments pass, long ones are replaced by their pieces |
| `Splitting.SplitOnSentences` | aligner.py:205-229 | the word walk of one long segment computes its pieces |
| `Splitting.WalkConserves` | aligner.py:210-229 | the pieces are non-empty and, read in order, are the gathered words followed by the rest |
| `Splitting.WalkFollowsSentences` | aligner.py:213-227 | every piece but the last ended on a match with its sentence, the sentences taken in order: the sentence index never passes the sentence count, and there is at most one more piece than sentences |
| `Splitting.WalkWithoutMatch` | aligner.py:210-229 | when no run of words matches the next sentence, everything comes out as one piece |
| `Splitting.DottedFirstSentenceKeepsWhole` | aligner.py:205-229 | a long segment whose first detected sentence holds a dotted acronym is never cut and comes out whole |
| `Splitting.WalkKeepsSpeaker` | aligner.py:210-229 | the pieces of a one-speaker run are all of that speaker |
| `Splitting.SplitOneConserves` | aligner.py:197-229 | a segment becomes non-empty pieces that spell it out exactly; a segment within the limit is its own single piece |
| `Splitting.SplitLongConserves` | aligner.py:196-230 | the stage keeps every word in order and makes no empty segment |
| `Splitting.SplitOneKeepsSpeaker` | aligner.py:197-229 | a segment of one speaker is only cut into pieces of that speaker |
| `PunctMerge.MergePunctuationOnlySegments` | aligner.py:233-256 | the loop computes the specification: a punctuation-only segment joins the previous output, or is kept when it comes first |
| `PunctMerge.PunctuationOnlyAppend` | aligner.py:247-248 | two segments together are punctuation only exactly when each of them is |
| `PunctMerge.AbsorbConserves` | aligner.py:245-256 | no word is lost, duplicated or reordered |
| `PunctMerge.AbsorbShape` | aligner.py:245-256 | no more segments than given, none made empty, and no output exactly on no input |
| `PunctMerge.AbsorbClean` | aligner.py:245-256 | every output segment after the first has some text that is not punctuation |
| `PunctMerge.AbsorbOfClean` | aligner.py:245-256 | a segmentation whose segments after the first are not punctuation only is left as it is |
| `PunctMerge.AbsorbIdempotent` | aligner.py:245-256 | applying the stage twice is the same as applying it once |
| `Pipeline.GetGroupedSegments` | aligner.py:301-337 | the four stages in order, the last one on request |
| `Pipeline.GroupedSegmentsConserve` | aligner.py:324-337 | whatever the tokenizer and parameters, the pipeline keeps every word in order, makes only non-empty segments, and returns none exactly on no words |
| `Transcription.SegmentTranscription` | aligner.py:340-412 | the function returns the records of the grouped segments or raises as its specification says |
| `Transcription.ValidateWords` | aligner.py:382-385 | the loop reports the error of the first word that fails the field check |
| `Transcription.CheckObjectWords` | aligner.py:382-385 | dict words pass exactly when each has the four keys; otherwise the error is the missing-fields ValueError |
| `Transcription.ToWordsSpec` | aligner.py:381-389 | conversion succeeds exactly on well-formed words, and keeps their order, texts, times and speaker ids |
| `Transcription.RaisesValueErrors` | aligner.py:373-385 | a non-dict, non-path input, a dict without a `words` list, and a dict word missing a field each raise their ValueError, whatever the tokenizer and parameters |
| `Transcription.SucceedsOnWellFormed` | aligner.py:373-412 | well-formed words with a usable language give records, no more than the words, and none exactly on no words |
| `Transcription.BuildRecords` | aligner.py:398-410 | the append loop computes the records of the segments |
| `Transcription.RecordsSpec` | aligner.py:398-410 | one record per segment: the first word's speaker, bracketed on request, the first word's start, the last word's end, the space-joined texts |
| `Speakers.CutFirstPrefix` | save_as_srt.py:63-67 | the loop with `break` leaves a suffix of the id, and the id itself when no prefix matches |
| `Speakers.WithoutDigitsIsSpeakerOne` | save_as_srt.py:56-83 | an empty id, or one without a digit, is `Speaker 1` |
| `Speakers.ZeroBasedIds` | save_as_srt.py:70-80 | `speaker_<n>`, in any case, is `Speaker n+1`, so `speaker_0` is `Speaker 1` |
| `Speakers.OneBasedIds` | save_as_srt.py:70-80 | `spk_<n>`, in any case, is `Speaker n`, except that `spk_0` is `Speaker 1` |
| `Speakers.NormalizedIsSpeakerName` | save_as_srt.py:51-83 | every id normalizes to `Speaker k` for some k of at least 1 |
| `Speakers.SpeakerNameIsFixed` | save_as_srt.py:51-83 | `Speaker k` with k at least 1 normalizes to itself |
| `Speakers.NormalizeSpeakerIdempotent` | save_as_srt.py:51-83 | normalizing twice is normalizing once |
| `TextCleaning.CleanTextSpacingSpec` | save_as_srt.py:95-97 | the result has no whitespace at either end and only single spaces inside, and keeps every character that is not whitespace, in order |
| `TextCleaning.CleanTextSpacingIdempotent` | save_as_srt.py:95-97 | cleaning twice is cleaning once |
| `TextCleaning.FixWordSpacingSpec` | save_as_srt.py:145-161 | no listed letter is next to a digit on either side, only single spaces, no whitespace at either end, and every other character kept in order |
| `TextCleaning.SeparateOfNoPair` | save_as_srt.py:152-156 | a text without a pair of the substitution's kind is left unchanged |
| `TextCleaning.FixWordSpacingOfFixed` | save_as_srt.py:145-161 | a stripped, single-spaced text without a listed letter next to a digit is left unchanged |
| `TextCleaning.FixWordSpacingIdempotent` | save_as_srt.py:145-161 | fixing twice is fixing once |
| `TextCleaning.SpacingExample` | save_as_srt.py:145-161 | `meinem1er` becomes `meinem 1 er` |
| `TextCleaning.ExpandOnlyAddsPeriods` | save_as_srt.py:100-110 | expansion only inserts periods: with the periods removed, the text is as it was |
| `TextCleaning.ExpandKeepsCharacters` | save_as_srt.py:100-110 | a character other than a period is in the expanded text exactly when it is in the text |
| `TextCleaning.ExpandWithoutAcronyms` | save_as_srt.py:100-110 | text without a whole word of two or more capitals is unchanged |
| `TextCleaning.ExpandLeavesNoAcronym` | save_as_srt.py:100-110 | no whole word of two or more capitals is left anywhere in the result |
| `TextCleaning.ExpandIdempotent` | save_as_srt.py:100-110 | expanding an expanded text changes nothing: dotted acronyms are not dotted again |
| `TextCleaning.ExpandAcronymsSplit` | save_as_srt.py:107-110 | the expansion distributes over a cut after a character that is not a word character, so it works word by word |
| `TextCleaning.AcronymDottedAnywhere` | save_as_srt.py:107-110 | a whole word of two or more capitals becomes its letters each followed by a period, wherever it stands, and the text around it is expanded on its own |
| `TextCleaning.NoCapitalsKept` | save_as_srt.py:100-110 | text without capitals is unchanged |
| `TextCleaning.AcronymInSentence` | save_as_srt.py:100-110 | `I love NASA` becomes `I love N.A.S.A.` |
| `TextCleaning.DottedAcronymKept` | save_as_srt.py:100-110 | `N.A.S.A.` is left as it is |
| `TextCleaning.AcronymExamples` | save_as_srt.py:100-110 | `NASA` becomes `N.A.S.A.`, `NASA's` becomes `N.A.S.A.'s`, and `NASAs` is unchanged |
| `TranscriptCleaning.CleanTranscriptionData` | save_as_srt.py:113-142 | the two loops over the copy compute the cleaned transcript or the exception they raise |
| `TranscriptCleaning.RenumberSpeakerIds` | save_as_srt.py:123-131 | step 1 succeeds exactly when every word is a dict, and then renumbers each word, keeping the list's length |
| `TranscriptCleaning.CleanWordTexts` | save_as_srt.py:134-140 | step 2 cleans the text of each word and keeps the list's length |
| `TranscriptCleaning.RemoveNuls` | save_as_srt.py:138 | the result has no NUL, is no longer than the text, and is the text itself when it has no NUL |
| `TranscriptCleaning.RemoveNulsAppend` | save_as_srt.py:138 | NULs are removed piece by piece: the result for `a + b` is the result for `a` followed by that for `b` |
| `TranscriptCleaning.RemoveNulsOfNul` | save_as_srt.py:138 | a lone NUL gives the empty string |
| `TranscriptCleaning.RemoveNulsAroundNul` | save_as_srt.py:138 | a NUL between two NUL-free texts goes, and both texts are kept in order |
| `TranscriptCleaning.RenumbersFromOne` | save_as_srt.py:126-129 | `<prefix>_<n>` becomes `speaker_<n+1>` for any prefix without an underscore |
| `TranscriptCleaning.RenumberWordSpec` | save_as_srt.py:123-131 | step 1 keeps the word's keys and every field but `speaker_id`, which is replaced exactly when it is a string that renumbers |
| `TranscriptCleaning.CleanWordTextSpec` | save_as_srt.py:134-140 | step 2 keeps the keys and every field but `text`; a string text loses its NULs and otherwise changes only by inserted periods; any other text is untouched |
| `TranscriptCleaning.CleanedTranscriptionSpec` | save_as_srt.py:113-142 | the transcript's other fields are untouched and the word list keeps its length, each word cleaned by the two steps; an exception comes exactly from a `words` value that is not iterated as dicts |
| `TranscriptCleaning.CleanSegmentWords` | save_as_srt.py:284-310 | the inner loop computes the kept, cleaned words of one segment |
| `TranscriptCleaning.CleanSpeechSegments` | save_as_srt.py:273-313 | the outer loop computes the cleaned segments |
| `TranscriptCleaning.CleanTextKeepsCharacters` | save_as_srt.py:289-305 | apart from whitespace, a cleaned text is the text without its NULs |
| `TranscriptCleaning.CleanTextHasNoNul` | save_as_srt.py:290-292 | a cleaned text has no NUL |
| `TranscriptCleaning.CleanTextForm` | save_as_srt.py:289-305 | a cleaned text is stripped, single-spaced, has no listed letter next to a digit and no whitespace right before one of `,.!?;:` |
| `TranscriptCleaning.DropLeavesNoSpaceBeforeMark` | save_as_srt.py:296-298 | after the punctuation-spacing fix no whitespace character stands right before one of `,.!?;:` |
| `TranscriptCleaning.DropSpaceFixpoint` | save_as_srt.py:296-298 | on a text with no whitespace before a mark, the punctuation-spacing fix changes nothing, so it removes no other whitespace |
| `TranscriptCleaning.DropSpaceIdempotent` | save_as_srt.py:296-298 | applying the punctuation-spacing fix twice is applying it once |
| `TranscriptCleaning.DropRunBeforeMark` | save_as_srt.py:296-298 | a whitespace run right before a mark is removed |
| `TranscriptCleaning.DropSpaceBeforeWord` | save_as_srt.py:296-298 | a space before a character that is neither whitespace nor a mark stays |
| `TranscriptCleaning.JoinMarksIdentity` | save_as_srt.py:299-301 | on a text with no whitespace before a mark, removing the space between two marks changes nothing |
| `TranscriptCleaning.JoinMarksAfterDrop` | save_as_srt.py:296-301 | so, applied after the punctuation-spacing fix, the second substitution is the identity |
| `TranscriptCleaning.JoinMarksDoesNotOverlap` | save_as_srt.py:299-301 | matches of the second substitution do not overlap: in mark, space, mark, space, mark only the first space goes |
| `TranscriptCleaning.CommasNotAllJoined` | save_as_srt.py:299-301 | on its own the second substitution turns `", , ,"` into `",, ,"` |
| `TranscriptCleaning.FixWordSpacingKeepsNoSpaceBeforeMark` | save_as_srt.py:145-161 | the word-spacing fix inserts spaces only before a letter or a digit, so it puts no whitespace before a mark |
| `TranscriptCleaning.CleanTextNoSpaceBeforeMark` | save_as_srt.py:289-305 | a cleaned text has no whitespace right before one of `,.!?;:` |
| `TranscriptCleaning.CleanTextMarksNotSpaced` | save_as_srt.py:289-305 | two marks of a cleaned text never have only whitespace between them |
| `TranscriptCleaning.CleanTextOfClean` | save_as_srt.py:289-305 | a text already of the cleaned shape (no NUL, stripped, single-spaced, no listed letter next to a digit, no whitespace before a mark) is left unchanged |
| `TranscriptCleaning.CleanTextIdempotent` | save_as_srt.py:289-305 | cleaning twice is cleaning once |
| `TranscriptCleaning.CleanTextSpacesAndMark` | save_as_srt.py:289-305 | two words and a mark separated by whitespace runs become the words with one space between them and the mark right after the second |
| `TranscriptCleaning.HelloWorldCleaned` | save_as_srt.py:289-305 | `"hello  world ,ok"` cleans to `"hello world,ok"` |
| `TranscriptCleaning.CleanedWordSpec` | save_as_srt.py:285-310 | a word is kept exactly when it is a dict with a string text whose cleaning is not empty; then only its text changes, to the cleaned text |
| `TranscriptCleaning.CleanedWordsInOrder` | save_as_srt.py:284-310 | the kept words are the cleanings of exactly the words the cleaning keeps, each once and in their original order |
| `TranscriptCleaning.CleanedSegmentsSpec` | save_as_srt.py:273-313 | no output segment is empty, there are no more of them than input segments, and together they hold exactly the kept words in order |
| `SubtitleFilters.ContainsMeaningfulWords` | subtitle_filters.py:24-71 | only a non-empty string can be meaningful |
| `SubtitleFilters.RemoveAllDeletes` | subtitle_filters.py:38-43 | each tag substitution only deletes: the result is no longer, and every character in it was in the text |
| `SubtitleFilters.RemoveAllWithoutOpener` | subtitle_filters.py:38-43 | text without the pattern's opening character is left as it is |
| `SubtitleFilters.StripTagsDeletes` | subtitle_filters.py:38-43 | every character left after the four substitutions was in the text |
| `SubtitleFilters.AlnumIsNotFiller` | subtitle_filters.py:56-69 | with an ASCII letter or digit present, no filler pattern matches the lowered, stripped text |
| `SubtitleFilters.MeaningfulAfterTagsIffAlnum` | subtitle_filters.py:47-71 | after the tags are removed, the checks pass exactly when an ASCII letter or digit is left |
| `SubtitleFilters.MeaningfulIffAlnumAfterTags` | subtitle_filters.py:24-71 | a string is meaningful exactly when an ASCII letter or digit survives the tag removal |
| `SubtitleFilters.WithoutAlnumNotMeaningful` | subtitle_filters.py:24-71 | a text with no ASCII letter or digit anywhere is not meaningful |
| `SubtitleFilters.LoneBracketTag` | subtitle_filters.py:38-54 | a lone speaker tag `[inner]` is not meaningful, whatever letters are inside |
| `SubtitleFilters.LoneDashTag` | subtitle_filters.py:38-54 | a dash, whitespace and a speaker tag, `- [inner]`, is not meaningful |
| `SubtitleFilters.LoneParenthesis` | subtitle_filters.py:38-54 | a lone aside `(inner)` is not meaningful when no `[` inside starts an earlier match |
| `SubtitleFilters.LoneHtmlTag` | subtitle_filters.py:38-54 | a lone HTML tag `<inner>` is not meaningful when nothing inside starts an earlier match |
| `SubtitleFilters.FilterAlignerSegments` | subtitle_filters.py:74-117 | the loop returns the kept segments and the number of dict segments it removed |
| `SubtitleFilters.FilterCounts` | subtitle_filters.py:87-109 | kept plus removed plus non-dict segments is the number of segments |
| `SubtitleFilters.FilteredInOrder` | subtitle_filters.py:87-109 | the result is, in order and each once, exactly the segments that are kept |
| `SubtitleFilters.KeepsIffAlnum` | subtitle_filters.py:90-104 | a segment is kept exactly when it is a dict whose text is a string with an ASCII letter or digit outside the tags |

## Left out

- File and console I/O is not modelled: `load_json`, `print_segments`, both command-line `main` functions, the SRT file writes and the `SimpleLogger` output. `segment_transcription` takes a `load` parameter in place of reading the file. `removed_count`, which the source only logs, is returned as a second result.
- Grouping.Breaks, Splitting.Duration: time arithmetic is exact real arithmetic, while the source subtracts IEEE doubles. A gap or duration within rounding of its threshold may fall on the other side: `1.1 - 0.35` is `0.7500000000000001` in the source, which exceeds a pause threshold of `0.75`, but it is exactly `0.75` in the model. NaN and infinite times are not modelled.
- `format_time` is left out, because it is floating-point arithmetic (`% 1`, `* 1000`, truncation).
- `save_segments_as_srt` and the rest of `generate_srt_from_transcript` are left out: the reading of the transcript, the fallback branch that discards every segment (save_as_srt.py:245-269) and the SRT writing. Only its segment-cleaning loop is modelled.
- The fallback `filter_aligner_segments` of save_as_srt.py:30-38 is left out, as it is used only when subtitle_filters.py cannot be imported.
- lambda_function.py, the test and debug scripts, run_sample.py and setup.py are adapters, scripts and packaging, and are not part of this model.
- `\w`, `\d` and `lower()` are ASCII only. Unicode letters and digits outside ASCII are not modelled; the listed letters `äöüßÄÖÜ` of `fix_word_spacing_issues` and `ÄÖÜ` of the acronym pattern are included.
- The real sentence tokenizer is a parameter of the stages. Only the regular-expression tokenizer of aligner.py:12-18 is modelled concretely.
- `language_code` is accepted but never used by tokenization, so the stages ignore it.
- PunctMerge.MergePunctuationOnlySegments: the source's `cleaned[-1].extend(seg)` also changes the caller's inner list. Segments are values here, so that aliasing is not modelled.
- Transcription.SegmentTranscription: a word whose `speaker_id` is not a string ends in the `UnsupportedSpeaker` error, since the model's words carry string ids. Which Python exception a malformed word raises (TypeError or AttributeError) is approximated.
- TranscriptCleaning.CleanTranscriptionData: the copy made by `copy.deepcopy` is implicit, because values cannot be changed in place. A transcript that is not a dict is left out; the function takes a dict.
- TranscriptCleaning.CleanSpeechSegments: only the list form of a segment is modelled, because the pipeline makes no other; the dict branch of save_as_srt.py:279-280 is left out.
- SubtitleFilters.ContainsMeaningfulWords: `re.findall` is modelled by its outcome, whether any match exists, which is whether an ASCII letter or digit is present.
- `expand_acronyms` is modelled with the ASCII `'s` suffix only, since both alternatives of its lookahead are spelled with the ASCII apostrophe.
