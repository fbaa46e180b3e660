/**
 * Sentence detection as the two sentence-aware stages use it (aligner.py:127-140 and
 * 188-208): the sentence tokenizer and the acronym protect/restore helpers are
 * parameters, so every structural property of the stages holds for any of them.
 * `StandardTools` gathers the concrete helpers the aligner ships with.
 */
module Sentences {
  import opened PyStr
  import opened Words

  /** The tokenizer, `replace_acronyms` and `restore_acronyms`, as total functions. */
  datatype SentenceTools = SentenceTools(
    tokenize: string -> seq<string>,
    protect: string -> string,
    restore: string -> string)

  /**
   * The sentences of a run of words (aligner.py:137-140, 205-208): the SPACE-joined
   * texts are protected, tokenized, and each sentence restored.
   */
  function DetectSentences(tools: SentenceTools, ws: Segment): (r: seq<string>)
    ensures var raw := tools.tokenize(tools.protect(SpaceJoined(ws)));
            |r| == |raw| && forall i :: 0 <= i < |r| ==> r[i] == tools.restore(raw[i])
  {
    var raw := tools.tokenize(tools.protect(SpaceJoined(ws)));
    seq(|raw|, i requires 0 <= i < |raw| => tools.restore(raw[i]))
  }

  /**
   * The stop test of both walks (aligner.py:154, 219-222): the punctuation-aware running
   * text, stripped and RE-PROTECTED, equals the stripped (restored) target sentence.
   */
  predicate Matches(tools: SentenceTools, ws: Segment, target: string) {
    tools.protect(Strip(Accumulated(ws))) == Strip(target)
  }

  /** `Matches` as a value, so that the walks can be reasoned about for any stop test. */
  function StopTest(tools: SentenceTools): (Segment, string) -> bool {
    (ws: Segment, target: string) => Matches(tools, ws, target)
  }

  /** The stop test, spelled out on the running text the stage loops keep. */
  lemma StopTestIs(tools: SentenceTools, ws: Segment, target: string)
    ensures StopTest(tools)(ws, target) <==> tools.protect(Strip(Accumulated(ws))) == Strip(target)
  {
  }

  /** `DetectSentences` as a value, for the same reason. */
  function DetectTest(tools: SentenceTools): Segment -> seq<string> {
    (ws: Segment) => DetectSentences(tools, ws)
  }

  // ----- simple_sentence_tokenize (aligner.py:12-18) -----

  /** The look-behind class `[.!?。！？]` of `SENTENCE_SPLIT_RE`. */
  predicate IsTerminator(c: char) {
    c == '.' || c == '!' || c == '?' || c == '\U{3002}' || c == '\U{FF01}' || c == '\U{FF1F}'
  }

  /** A sentence boundary at `i`: a terminator immediately followed by whitespace. */
  predicate BoundaryAt(s: string, i: int) {
    0 <= i && i + 1 < |s| && IsTerminator(s[i]) && IsSpace(s[i + 1])
  }

  predicate NoBoundary(s: string) {
    forall i :: 0 <= i < |s| ==> !BoundaryAt(s, i)
  }

  /**
   * `SENTENCE_SPLIT_RE.split(s)`, scanning left to right: `current` is the piece being
   * built and `afterTerminator` says whether the previous character was a terminator.
   * A whitespace run right after a terminator is consumed whole and ends the piece.
   */
  function RegexSplit(s: string, current: string, afterTerminator: bool): (r: seq<string>)
    ensures |r| >= 1
    decreases |s|
  {
    if s == [] then [current]
    else if afterTerminator && IsSpace(s[0]) then
      [current] + RegexSplit(LStrip(s), "", false)
    else RegexSplit(s[1..], current + [s[0]], IsTerminator(s[0]))
  }

  /** `[p.strip() for p in pieces if p.strip()]`. */
  function StrippedNonEmpty(pieces: seq<string>): (r: seq<string>)
    ensures |r| <= |pieces|
    ensures forall i :: 0 <= i < |r| ==> r[i] != "" && IsStripped(r[i])
    decreases |pieces|
  {
    if pieces == [] then []
    else
      var p := Strip(pieces[0]);
      var rest := StrippedNonEmpty(pieces[1..]);
      StripSpec(pieces[0]);
      if p != "" then
        StrippedCons(p, rest);
        [p] + rest
      else rest
  }

  lemma StrippedCons(p: string, rest: seq<string>)
    requires p != "" && IsStripped(p)
    requires forall i :: 0 <= i < |rest| ==> rest[i] != "" && IsStripped(rest[i])
    ensures forall i :: 0 <= i < |[p] + rest| ==> ([p] + rest)[i] != "" && IsStripped(([p] + rest)[i])
  {
  }

  function SimpleSentenceTokenize(text: string): seq<string> {
    StrippedNonEmpty(RegexSplit(text, "", false))
  }

  /** Every sentence of `simple_sentence_tokenize` is non-empty and already stripped. */
  lemma TokenizeSentencesAreStripped(text: string)
    ensures forall i :: 0 <= i < |SimpleSentenceTokenize(text)| ==>
              SimpleSentenceTokenize(text)[i] != "" && Strip(SimpleSentenceTokenize(text)[i]) == SimpleSentenceTokenize(text)[i]
  {
    forall i | 0 <= i < |SimpleSentenceTokenize(text)|
      ensures Strip(SimpleSentenceTokenize(text)[i]) == SimpleSentenceTokenize(text)[i]
    {
      StripOfStripped(SimpleSentenceTokenize(text)[i]);
    }
  }

  lemma {:induction false} RegexSplitNoBoundary(s: string, current: string, afterTerminator: bool)
    requires NoBoundary(s)
    requires afterTerminator ==> s == [] || !IsSpace(s[0])
    ensures RegexSplit(s, current, afterTerminator) == [current + s]
    decreases |s|
  {
    if s != [] {
      assert !BoundaryAt(s, 0);
      assert RegexSplit(s, current, afterTerminator) == RegexSplit(s[1..], current + [s[0]], IsTerminator(s[0]));
      forall i | 0 <= i < |s[1..]| ensures !BoundaryAt(s[1..], i) {
        assert !BoundaryAt(s, i + 1);
      }
      RegexSplitNoBoundary(s[1..], current + [s[0]], IsTerminator(s[0]));
      assert current + [s[0]] + s[1..] == current + s;
    } else {
      assert current + s == current;
    }
  }

  /** Without a terminator followed by whitespace the text is one sentence (or none, when it is blank). */
  lemma TokenizeWithoutBoundary(text: string)
    requires NoBoundary(text)
    ensures SimpleSentenceTokenize(text) == if Strip(text) == "" then [] else [Strip(text)]
  {
    RegexSplitNoBoundary(text, "", false);
    assert "" + text == text;
  }

  /**
   * `a`, then whitespace, then `b` splits after `a` when `a` ends on a terminator and has
   * no boundary of its own, and `b` does not start with whitespace.
   */
  lemma {:induction false} RegexSplitAtBoundary(a: string, gap: string, b: string)
    requires a != [] && IsTerminator(a[|a| - 1]) && NoBoundary(a)
    requires gap != [] && AllSpace(gap)
    requires b == [] || !IsSpace(b[0])
    ensures RegexSplit(a + gap + b, "", false) == [a] + RegexSplit(b, "", false)
  {
    assert (gap + b)[0] == gap[0];
    SplitPrefix(a, gap + b, "", false);
    assert a + gap + b == a + (gap + b);
    LStripOfSpacePrefix(gap, b);
    assert "" + a == a;
  }

  lemma {:induction false} LStripOfSpacePrefix(gap: string, b: string)
    requires AllSpace(gap)
    requires b == [] || !IsSpace(b[0])
    ensures LStrip(gap + b) == b
    decreases |gap|
  {
    if gap == [] {
      assert gap + b == b;
    } else {
      assert (gap + b)[1..] == gap[1..] + b;
      LStripOfSpacePrefix(gap[1..], b);
    }
  }

  lemma {:induction false} SplitPrefix(a: string, rest: string, current: string, afterTerminator: bool)
    requires a != [] && IsTerminator(a[|a| - 1]) && NoBoundary(a)
    requires afterTerminator ==> !IsSpace(a[0])
    requires rest != [] && IsSpace(rest[0])
    ensures RegexSplit(a + rest, current, afterTerminator) == [current + a] + RegexSplit(LStrip(rest), "", false)
    decreases |a|
  {
    if |a| == 1 {
      SplitPrefixLast(a, rest, current, afterTerminator);
    } else {
      NoBoundaryTail(a);
      SplitPrefix(a[1..], rest, current + [a[0]], IsTerminator(a[0]));
      SplitPrefixStep(a, rest, current, afterTerminator);
    }
  }

  /** Past the first character of a text without boundaries there is still none. */
  lemma NoBoundaryTail(a: string)
    requires |a| >= 2 && NoBoundary(a)
    ensures NoBoundary(a[1..]) && (IsTerminator(a[0]) ==> !IsSpace(a[1..][0]))
    ensures a[1..][|a[1..]| - 1] == a[|a| - 1]
  {
    assert !BoundaryAt(a, 0);
    forall i | 0 <= i < |a[1..]| ensures !BoundaryAt(a[1..], i) {
      assert !BoundaryAt(a, i + 1);
    }
  }

  /** The terminator that ends `a`, then whitespace: the piece ends there. */
  lemma SplitPrefixLast(a: string, rest: string, current: string, afterTerminator: bool)
    requires |a| == 1 && IsTerminator(a[0])
    requires afterTerminator ==> !IsSpace(a[0])
    requires rest != [] && IsSpace(rest[0])
    ensures RegexSplit(a + rest, current, afterTerminator) == [current + a] + RegexSplit(LStrip(rest), "", false)
  {
    HeadOfAppend(a, rest);
    assert a[1..] + rest == rest;
    RegexSplitStep(a + rest, current, afterTerminator);
    RegexSplitBoundary(rest, current + [a[0]]);
    assert [a[0]] == a;
  }

  /** Whitespace after a terminator ends the piece and is consumed whole. */
  lemma RegexSplitBoundary(s: string, current: string)
    requires s != [] && IsSpace(s[0])
    ensures RegexSplit(s, current, true) == [current] + RegexSplit(LStrip(s), "", false)
  {
  }

  /** A character of `a` before its end joins the piece being built. */
  lemma SplitPrefixStep(a: string, rest: string, current: string, afterTerminator: bool)
    requires |a| >= 2 && (afterTerminator ==> !IsSpace(a[0]))
    requires RegexSplit(a[1..] + rest, current + [a[0]], IsTerminator(a[0]))
             == [(current + [a[0]]) + a[1..]] + RegexSplit(LStrip(rest), "", false)
    ensures RegexSplit(a + rest, current, afterTerminator) == [current + a] + RegexSplit(LStrip(rest), "", false)
  {
    HeadOfAppend(a, rest);
    RegexSplitStep(a + rest, current, afterTerminator);
    AppendAssoc(current, [a[0]], a[1..]);
    ConsSplit(a);
  }

  /** Away from a boundary the scan moves one character into the piece. */
  lemma RegexSplitStep(s: string, current: string, afterTerminator: bool)
    requires s != [] && !(afterTerminator && IsSpace(s[0]))
    ensures RegexSplit(s, current, afterTerminator) == RegexSplit(s[1..], current + [s[0]], IsTerminator(s[0]))
  {
  }

  // ----- replace_acronyms / restore_acronyms (aligner.py:124-133, 185-194) -----

  /** `[A-ZÄÖÜ]`. */
  predicate IsAcronymLetter(c: char) {
    IsAsciiUpper(c) || c == '\U{C4}' || c == '\U{D6}' || c == '\U{DC}'
  }

  /** How many letter-period pairs `(?:[A-ZÄÖÜ]\.)` start `s`, greedily. */
  function PairRun(s: string): (n: nat)
    ensures 2 * n <= |s|
    decreases |s|
  {
    if |s| >= 2 && IsAcronymLetter(s[0]) && s[1] == '.' then 1 + PairRun(s[2..]) else 0
  }

  /** `PairRun` counts exactly the letter-period pairs at the start, and stops at the first non-pair. */
  lemma {:induction false} PairRunSpec(s: string)
    ensures forall k :: 0 <= k < PairRun(s) ==> IsAcronymLetter(s[2 * k]) && s[2 * k + 1] == '.'
    ensures !(2 * PairRun(s) + 1 < |s| && IsAcronymLetter(s[2 * PairRun(s)]) && s[2 * PairRun(s) + 1] == '.')
    decreases |s|
  {
    if |s| >= 2 && IsAcronymLetter(s[0]) && s[1] == '.' {
      PairRunSpec(s[2..]);
      forall k | 1 <= k < PairRun(s) ensures IsAcronymLetter(s[2 * k]) && s[2 * k + 1] == '.' {
        assert s[2 * k] == s[2..][2 * (k - 1)] && s[2 * k + 1] == s[2..][2 * (k - 1) + 1];
      }
      assert s[2 * PairRun(s)..] == s[2..][2 * PairRun(s[2..])..];
    }
  }

  const Placeholder: string := "__ACRONYM__"

  /** The first `n` pairs of `s` with each period replaced by the placeholder. */
  function ProtectPairs(s: string, n: nat): (r: string)
    requires 2 * n <= |s|
    ensures |r| == 12 * n
    decreases n
  {
    if n == 0 then "" else [s[0]] + Placeholder + ProtectPairs(s[2..], n - 1)
  }

  /** `acronym_pattern.sub(...)`: every run of two or more letter-period pairs gets its periods replaced. */
  function ReplaceAcronyms(s: string): string
    decreases |s|
  {
    if s == [] then []
    else
      var n := PairRun(s);
      if n >= 2 then ProtectPairs(s, n) + ReplaceAcronyms(s[2 * n..])
      else [s[0]] + ReplaceAcronyms(s[1..])
  }

  /** `text.replace(ACRONYM_PLACEHOLDER, ".")`, left to right. */
  function RestoreAcronyms(s: string): string
    decreases |s|
  {
    if s == [] then []
    else if |s| >= |Placeholder| && s[..|Placeholder|] == Placeholder then "." + RestoreAcronyms(s[|Placeholder|..])
    else [s[0]] + RestoreAcronyms(s[1..])
  }

  const StandardTools: SentenceTools := SentenceTools(SimpleSentenceTokenize, ReplaceAcronyms, RestoreAcronyms)

  /** Text without periods has nothing to protect. */
  lemma {:induction false} ReplaceWithoutPeriods(s: string)
    requires '.' !in s
    ensures ReplaceAcronyms(s) == s
    decreases |s|
  {
    if s != [] {
      assert PairRun(s) == 0 by {
        if |s| >= 2 { assert s[1] in s; }
      }
      ReplaceWithoutPeriods(s[1..]);
    }
  }

  lemma RestoreAfterChar(c: char, tail: string)
    requires c != '_'
    ensures RestoreAcronyms([c] + tail) == [c] + RestoreAcronyms(tail)
  {
    var t := [c] + tail;
    assert t[1..] == tail;
    if |t| >= |Placeholder| {
      assert t[..|Placeholder|][0] == c;
    }
  }

  lemma RestoreAfterPlaceholder(tail: string)
    ensures RestoreAcronyms(Placeholder + tail) == "." + RestoreAcronyms(tail)
  {
    var t := Placeholder + tail;
    assert t[..|Placeholder|] == Placeholder;
    assert t[|Placeholder|..] == tail;
  }

  lemma {:induction false} RestoreOfProtectPairs(s: string, n: nat, rest: string)
    requires n <= PairRun(s)
    ensures RestoreAcronyms(ProtectPairs(s, n) + rest) == s[..2 * n] + RestoreAcronyms(rest)
    decreases n
  {
    if n == 0 {
      assert ProtectPairs(s, n) + rest == rest;
    } else {
      RestoreOfProtectPairs(s[2..], n - 1, rest);
      RestoreOfProtectPairsStep(s, n, rest);
    }
  }

  /** One pair of the induction above: the letter, then the placeholder restored to a period. */
  lemma RestoreOfProtectPairsStep(s: string, n: nat, rest: string)
    requires 0 < n <= PairRun(s)
    requires RestoreAcronyms(ProtectPairs(s[2..], n - 1) + rest) == s[2..][..2 * (n - 1)] + RestoreAcronyms(rest)
    ensures RestoreAcronyms(ProtectPairs(s, n) + rest) == s[..2 * n] + RestoreAcronyms(rest)
  {
    var tail := ProtectPairs(s[2..], n - 1) + rest;
    var w := s[2..][..2 * (n - 1)];
    var rr := RestoreAcronyms(rest);
    var head: string := [s[0], '.'];
    assert RestoreAcronyms(ProtectPairs(s, n) + rest) == head + RestoreAcronyms(tail) by {
      ProtectPairsStep(s, n, rest);
      RestorePairStep(s[0], tail);
    }
    assert s[..2 * n] == head + w by {
      PairPrefix(s, n);
    }
    AppendAssoc(head, w, rr);
  }

  lemma ProtectPairsStep(s: string, n: nat, rest: string)
    requires 0 < n && 2 * n <= |s|
    ensures ProtectPairs(s, n) + rest == [s[0]] + (Placeholder + (ProtectPairs(s[2..], n - 1) + rest))
  {
  }

  lemma RestorePairStep(c: char, tail: string)
    requires IsAcronymLetter(c)
    ensures RestoreAcronyms([c] + (Placeholder + tail)) == [c, '.'] + RestoreAcronyms(tail)
  {
    RestoreAfterChar(c, Placeholder + tail);
    RestoreAfterPlaceholder(tail);
  }

  lemma PairPrefix(s: string, n: nat)
    requires 0 < n <= PairRun(s)
    ensures s[..2 * n] == [s[0], '.'] + s[2..][..2 * (n - 1)]
  {
  }

  /** Restoring undoes protecting, for text that has no underscore of its own. */
  lemma {:induction false} RestoreOfReplace(s: string)
    requires '_' !in s
    ensures RestoreAcronyms(ReplaceAcronyms(s)) == s
    decreases |s|
  {
    if s != [] {
      var n := PairRun(s);
      if n >= 2 {
        assert '_' !in s[2 * n..] by {
          forall k | 2 * n <= k < |s| ensures s[k] != '_' {
            assert s[k] in s;
          }
        }
        RestoreOfReplace(s[2 * n..]);
        RestoreReplaceRun(s, n);
      } else {
        assert s[0] in s;
        assert '_' !in s[1..] by {
          forall k | 1 <= k < |s| ensures s[k] != '_' {
            assert s[k] in s;
          }
        }
        RestoreOfReplace(s[1..]);
        RestoreReplaceChar(s);
      }
    }
  }

  /** A run of pairs comes back as it was. */
  lemma RestoreReplaceRun(s: string, n: nat)
    requires 2 <= n == PairRun(s)
    requires RestoreAcronyms(ReplaceAcronyms(s[2 * n..])) == s[2 * n..]
    ensures RestoreAcronyms(ReplaceAcronyms(s)) == s
  {
    ReplaceRunStep(s);
    RestoreOfProtectPairs(s, n, ReplaceAcronyms(s[2 * n..]));
    TakeDrop(s, 2 * n);
  }

  lemma ReplaceRunStep(s: string)
    requires s != [] && PairRun(s) >= 2
    ensures ReplaceAcronyms(s) == ProtectPairs(s, PairRun(s)) + ReplaceAcronyms(s[2 * PairRun(s)..])
  {
  }

  // ----- the protected running text never shows a dotted acronym -----

  /** `acronym_pattern` matches at `i`: two or more letter-period pairs start there. */
  predicate DottedAcronymAt(s: string, i: int) {
    0 <= i < |s| && PairRun(s[i..]) >= 2
  }

  predicate HasDottedAcronym(s: string) {
    exists i :: 0 <= i < |s| && DottedAcronymAt(s, i)
  }

  /** `B.M.W.` is a dotted acronym, and after a space it is one in the middle of a sentence. */
  lemma BmwIsDotted()
    ensures HasDottedAcronym("B.M.W.")
    ensures HasDottedAcronym("a B.M.W.")
  {
    DottedAcronymTwoPairs("B.M.W.", 0);
    DottedAcronymTwoPairs("a B.M.W.", 2);
  }

  /** Two letter-period pairs starting at `i`. */
  predicate TwoPairsAt(s: string, i: int) {
    0 <= i && i + 3 < |s| && IsAcronymLetter(s[i]) && s[i + 1] == '.' && IsAcronymLetter(s[i + 2]) && s[i + 3] == '.'
  }

  predicate NoTwoPairs(s: string) {
    forall i :: 0 <= i < |s| ==> !TwoPairsAt(s, i)
  }

  lemma DottedAcronymTwoPairs(s: string, i: int)
    requires 0 <= i < |s|
    ensures DottedAcronymAt(s, i) <==> TwoPairsAt(s, i)
  {
    var t := s[i..];
    if |t| >= 2 && IsAcronymLetter(t[0]) && t[1] == '.' {
      assert PairRun(t) == 1 + PairRun(t[2..]);
      assert |t| >= 4 ==> t[2..][0] == t[2] && t[2..][1] == t[3];
    }
  }

  /** The scan copies the first character, and the second one too unless it protects a run there. */
  lemma {:induction false} ReplaceHead(y: string)
    requires y != []
    ensures ReplaceAcronyms(y) != [] && ReplaceAcronyms(y)[0] == y[0]
    ensures |ReplaceAcronyms(y)| > 1 ==> |y| > 1 && (ReplaceAcronyms(y)[1] == y[1] || ReplaceAcronyms(y)[1] == '_')
    decreases |y|
  {
    if PairRun(y) >= 2 {
      ReplaceRunStep(y);
    } else {
      assert ReplaceAcronyms(y) == [y[0]] + ReplaceAcronyms(y[1..]);
      if |y| > 1 {
        ReplaceHead(y[1..]);
      }
    }
  }

  /** Protected pairs hold no period, and a placeholder ends them. */
  lemma {:induction false} ProtectPairsForm(s: string, n: nat)
    requires n <= PairRun(s)
    ensures forall k :: 0 <= k < |ProtectPairs(s, n)| ==> ProtectPairs(s, n)[k] != '.'
    ensures n > 0 ==> ProtectPairs(s, n)[12 * n - 1] == '_'
    decreases n
  {
    if n > 0 {
      assert PairRun(s) == 1 + PairRun(s[2..]);
      ProtectPairsForm(s[2..], n - 1);
      var tail := ProtectPairs(s[2..], n - 1);
      assert ProtectPairs(s, n) == [s[0]] + Placeholder + tail;
      assert '.' !in Placeholder;
    }
  }

  /** `replace_acronyms` leaves no two letter-period pairs in a row behind. */
  lemma {:induction false} ReplaceLeavesNoTwoPairs(x: string)
    ensures NoTwoPairs(ReplaceAcronyms(x))
    decreases |x|
  {
    if x != [] {
      if PairRun(x) >= 2 {
        ReplaceLeavesNoTwoPairs(x[2 * PairRun(x)..]);
        NoTwoPairsAfterRun(x);
      } else {
        ReplaceLeavesNoTwoPairs(x[1..]);
        NoTwoPairsAfterChar(x);
      }
    }
  }

  /** A protected run in front adds no two pairs in a row. */
  lemma NoTwoPairsAfterRun(x: string)
    requires x != [] && PairRun(x) >= 2
    requires NoTwoPairs(ReplaceAcronyms(x[2 * PairRun(x)..]))
    ensures NoTwoPairs(ReplaceAcronyms(x))
  {
    var n := PairRun(x);
    var pp := ProtectPairs(x, n);
    var r := ReplaceAcronyms(x[2 * n..]);
    ReplaceRunStep(x);
    assert ReplaceAcronyms(x) == pp + r;
    ProtectPairsForm(x, n);
    assert pp != [] && pp[|pp| - 1] == '_';
    NoTwoPairsAcross(pp, r);
  }

  /** Text with no period that ends in `_` starts no two pairs in a row, even with more text after it. */
  lemma NoTwoPairsAcross(pp: string, r: string)
    requires pp != [] && pp[|pp| - 1] == '_' && forall k :: 0 <= k < |pp| ==> pp[k] != '.'
    requires NoTwoPairs(r)
    ensures NoTwoPairs(pp + r)
  {
    forall i ensures !TwoPairsAt(pp + r, i) {
      if 0 <= i && i + 1 < |pp| {
        assert (pp + r)[i + 1] == pp[i + 1];
      } else if i + 1 == |pp| {
        assert (pp + r)[i] == '_';
      } else if i >= |pp| && i + 3 < |pp + r| {
        var j := i - |pp|;
        assert (pp + r)[i] == r[j] && (pp + r)[i + 1] == r[j + 1];
        assert (pp + r)[i + 2] == r[j + 2] && (pp + r)[i + 3] == r[j + 3];
        assert !TwoPairsAt(r, j);
      }
    }
  }

  /** A copied character in front adds no two pairs in a row, or the scan would have protected them. */
  lemma NoTwoPairsAfterChar(x: string)
    requires x != [] && PairRun(x) < 2
    requires NoTwoPairs(ReplaceAcronyms(x[1..]))
    ensures NoTwoPairs(ReplaceAcronyms(x))
  {
    var y := x[1..];
    var r := ReplaceAcronyms(y);
    assert ReplaceAcronyms(x) == [x[0]] + r;
    assert !TwoPairsAt([x[0]] + r, 0) by {
      if |r| >= 3 {
        DottedAcronymTwoPairs(x, 0);
        assert x[0..] == x;
        ReplaceHead(y);
        if y[0] == '.' {
          assert PairRun(y) == 0;
          assert r == [y[0]] + ReplaceAcronyms(y[1..]);
          ReplaceHead(y[1..]);
          assert y[1..][0] == y[1] && y[1..][1] == y[2];
        }
      }
    }
    forall i | i > 0 && i + 3 < |[x[0]] + r| ensures !TwoPairsAt([x[0]] + r, i) {
      assert ([x[0]] + r)[i] == r[i - 1] && ([x[0]] + r)[i + 1] == r[i];
      assert ([x[0]] + r)[i + 2] == r[i + 1] && ([x[0]] + r)[i + 3] == r[i + 2];
      assert !TwoPairsAt(r, i - 1);
    }
  }

  /**
   * The protected text contains no dotted acronym anywhere: every run the pattern could
   * match has had its periods replaced.
   */
  lemma ProtectedHasNoDottedAcronym(x: string)
    ensures forall i :: !DottedAcronymAt(ReplaceAcronyms(x), i)
  {
    ReplaceLeavesNoTwoPairs(x);
    forall i | 0 <= i < |ReplaceAcronyms(x)| ensures !DottedAcronymAt(ReplaceAcronyms(x), i) {
      DottedAcronymTwoPairs(ReplaceAcronyms(x), i);
    }
  }

  /**
   * The stop test compares the re-protected running text with the RESTORED target, so a
   * target sentence holding a dotted acronym such as `B.M.W.` is never matched, whatever
   * words have been gathered and whatever the tokenizer.
   */
  lemma DottedTargetNeverMatches(tools: SentenceTools, ws: Segment, target: string)
    requires tools.protect == ReplaceAcronyms
    requires HasDottedAcronym(Strip(target))
    ensures !Matches(tools, ws, target)
  {
    ProtectedHasNoDottedAcronym(Strip(Accumulated(ws)));
  }

  /** A character that starts no run comes back as it was. */
  lemma RestoreReplaceChar(s: string)
    requires s != [] && PairRun(s) < 2 && s[0] != '_'
    requires RestoreAcronyms(ReplaceAcronyms(s[1..])) == s[1..]
    ensures RestoreAcronyms(ReplaceAcronyms(s)) == s
  {
    assert ReplaceAcronyms(s) == [s[0]] + ReplaceAcronyms(s[1..]);
    RestoreAfterChar(s[0], ReplaceAcronyms(s[1..]));
    assert [s[0]] + s[1..] == s;
  }
}
