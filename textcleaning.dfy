/**
 * The string cleaners of save_as_srt.py: `clean_text_spacing` (95-97), `expand_acronyms`
 * (100-110) and `fix_word_spacing_issues` (145-161). Each regular-expression substitution
 * is written as the left-to-right scan `re.sub` performs: at each position either the
 * pattern matches, and its replacement is emitted and the scan resumes after the match, or
 * the character is kept and the scan moves on by one.
 */
module TextCleaning {
  import opened PyStr

  // ----- `re.sub(r"\s+", " ", s)` -----

  /** Every maximal run of whitespace becomes one space. */
  function Collapse(s: string): string
    decreases |s|
  {
    if s == [] then []
    else if IsSpace(s[0]) then " " + Collapse(LStrip(s[1..]))
    else [s[0]] + Collapse(s[1..])
  }

  /** `clean_text_spacing`: strip, then collapse the whitespace runs. */
  function CleanTextSpacing(text: string): string {
    Collapse(Strip(text))
  }

  // ----- adjacent characters -----

  /** The kinds of neighbouring characters the cleaners remove or pull apart. */
  datatype PairKind = TwoSpaces | LetterThenDigit | DigitThenLetter

  /** `[a-zA-ZäöüßÄÖÜ]` of `fix_word_spacing_issues`. */
  predicate IsListedLetter(c: char) {
    IsAsciiUpper(c) || IsAsciiLower(c) || c in "äöüßÄÖÜ"
  }

  predicate Adjacent(k: PairKind, a: char, b: char) {
    match k
    case TwoSpaces => IsSpace(a) && IsSpace(b)
    case LetterThenDigit => IsListedLetter(a) && IsAsciiDigit(b)
    case DigitThenLetter => IsAsciiDigit(a) && IsListedLetter(b)
  }

  /** No two neighbouring characters of `s` are of kind `k`. */
  predicate NoPair(s: string, k: PairKind) {
    forall i :: 0 <= i < |s| - 1 ==> !Adjacent(k, s[i], s[i + 1])
  }

  /** The only whitespace is single `' '` characters. */
  predicate SingleSpaced(s: string) {
    (forall i :: 0 <= i < |s| ==> IsSpace(s[i]) ==> s[i] == ' ') && NoPair(s, TwoSpaces)
  }

  /** The characters of `s` that are not whitespace, in order. */
  function NonSpace(s: string): string
    decreases |s|
  {
    if s == [] then [] else (if IsSpace(s[0]) then [] else [s[0]]) + NonSpace(s[1..])
  }

  // ----- `re.sub(r"([a-zA-ZäöüßÄÖÜ])(\d)", r"\1 \2", s)` and its mirror -----

  /** A space between the two characters of every non-overlapping pair of kind `k`, leftmost first. */
  function SeparatePairs(s: string, k: PairKind): string
    requires k != TwoSpaces
    decreases |s|
  {
    if |s| < 2 then s
    else if Adjacent(k, s[0], s[1]) then [s[0], ' ', s[1]] + SeparatePairs(s[2..], k)
    else [s[0]] + SeparatePairs(s[1..], k)
  }

  /**
   * `fix_word_spacing_issues`: a space between a listed letter and a digit, then between a
   * digit and a listed letter, then the whitespace runs collapsed and the ends stripped.
   */
  function FixWordSpacingIssues(text: string): string {
    Strip(Collapse(SeparatePairs(SeparatePairs(text, LetterThenDigit), DigitThenLetter)))
  }

  // ----- `re.sub(r"\b([A-Z]{2,})(?=(?:'s|'s)?\b)", repl, s)` -----

  /** The length of the run of `A`-`Z` letters at the front of `s`. */
  function UpperRun(s: string): (n: nat)
    ensures n <= |s| && (forall k :: 0 <= k < n ==> IsAsciiUpper(s[k])) && (n == |s| || !IsAsciiUpper(s[n]))
    decreases |s|
  {
    if s != [] && IsAsciiUpper(s[0]) then 1 + UpperRun(s[1..]) else 0
  }

  /** `".".join(letters) + "."`: every letter followed by a period. */
  function Dotted(s: string): string
    decreases |s|
  {
    if s == [] then [] else [s[0], '.'] + Dotted(s[1..])
  }

  /**
   * The pattern matches at the front of `s` (a position whose previous character is a word
   * character exactly when `afterWord`): a word boundary, then at least two capitals, then a
   * word boundary. The greedy run is the only candidate, since a shorter one is followed by
   * a capital; and the optional `'s` never decides, since an apostrophe after the run is
   * already a word boundary.
   */
  predicate AcronymAhead(s: string, afterWord: bool) {
    var n := UpperRun(s);
    !afterWord && n >= 2 && (n == |s| || !IsWordChar(s[n]))
  }

  function Expand(s: string, afterWord: bool): string
    decreases |s|
  {
    if s == [] then []
    else if AcronymAhead(s, afterWord) then
      var n := UpperRun(s);
      Dotted(s[..n]) + Expand(s[n..], true)
    else [s[0]] + Expand(s[1..], IsWordChar(s[0]))
  }

  /** `expand_acronyms`: every whole word of two or more capitals gets a period after each letter. */
  function ExpandAcronyms(text: string): string {
    Expand(text, false)
  }

  /** A whole-word run of at least two capitals starts at position `i`. */
  predicate AcronymAt(s: string, i: int) {
    0 <= i < |s| && AcronymAhead(s[i..], i > 0 && IsWordChar(s[i - 1]))
  }

  // ----- whitespace lemmas -----

  lemma {:induction false} NonSpaceAppend(a: string, b: string)
    ensures NonSpace(a + b) == NonSpace(a) + NonSpace(b)
    decreases |a|
  {
    if a == [] {
      assert a + b == b;
    } else {
      HeadOfAppend(a, b);
      NonSpaceAppend(a[1..], b);
      NonSpaceHead(a + b);
      NonSpaceHead(a);
      AppendAssoc(if IsSpace(a[0]) then [] else [a[0]], NonSpace(a[1..]), NonSpace(b));
    }
  }

  lemma NonSpaceHead(s: string)
    requires s != []
    ensures NonSpace(s) == (if IsSpace(s[0]) then [] else [s[0]]) + NonSpace(s[1..])
  {
  }

  lemma {:induction false} NonSpaceOfSpaces(s: string)
    requires AllSpace(s)
    ensures NonSpace(s) == []
    decreases |s|
  {
    if s != [] {
      NonSpaceOfSpaces(s[1..]);
    }
  }

  /** Dropping leading whitespace keeps what is not whitespace. */
  lemma LStripNonSpace(s: string)
    ensures NonSpace(LStrip(s)) == NonSpace(s)
  {
    var r := LStrip(s);
    assert s == s[..|s| - |r|] + r;
    NonSpaceAppend(s[..|s| - |r|], r);
    NonSpaceOfSpaces(s[..|s| - |r|]);
  }

  /** Dropping trailing whitespace keeps what is not whitespace. */
  lemma RStripNonSpace(s: string)
    ensures NonSpace(RStrip(s)) == NonSpace(s)
  {
    var r := RStrip(s);
    assert s == r + s[|r|..];
    NonSpaceAppend(r, s[|r|..]);
    NonSpaceOfSpaces(s[|r|..]);
  }

  /** A character other than whitespace survives exactly what whitespace removal keeps. */
  lemma {:induction false} InNonSpace(s: string, c: char)
    requires !IsSpace(c)
    ensures c in NonSpace(s) <==> c in s
    decreases |s|
  {
    if s != [] {
      InNonSpace(s[1..], c);
      assert s == [s[0]] + s[1..];
    }
  }

  /** Stripping keeps what is not whitespace. */
  lemma StripNonSpace(s: string)
    ensures NonSpace(Strip(s)) == NonSpace(s)
  {
    LStripNonSpace(s);
    RStripNonSpace(LStrip(s));
  }

  /** Collapsing changes only whitespace. */
  lemma {:induction false} CollapseNonSpace(s: string)
    ensures NonSpace(Collapse(s)) == NonSpace(s)
    decreases |s|
  {
    if s != [] {
      if IsSpace(s[0]) {
        var rest := LStrip(s[1..]);
        CollapseNonSpace(rest);
        LStripNonSpace(s[1..]);
        NonSpaceAppend(" ", Collapse(rest));
      } else {
        CollapseNonSpace(s[1..]);
        NonSpaceAppend([s[0]], Collapse(s[1..]));
      }
    }
  }

  /** The first character of a collapsed string. */
  lemma CollapseHead(s: string)
    ensures (Collapse(s) == []) <==> (s == [])
    ensures s != [] ==> Collapse(s)[0] == (if IsSpace(s[0]) then ' ' else s[0])
  {
  }

  /** A collapsed string has only single spaces. */
  lemma {:induction false} CollapseSingleSpaced(s: string)
    ensures SingleSpaced(Collapse(s))
    decreases |s|
  {
    if s != [] {
      var head := if IsSpace(s[0]) then ' ' else s[0];
      var rest := if IsSpace(s[0]) then LStrip(s[1..]) else s[1..];
      var c := Collapse(rest);
      CollapseSingleSpaced(rest);
      CollapseHead(rest);
      assert Collapse(s) == [head] + c;
      forall i | 0 <= i < |c| + 1 - 1 ensures !Adjacent(TwoSpaces, ([head] + c)[i], ([head] + c)[i + 1]) {
        if i > 0 {
          assert ([head] + c)[i] == c[i - 1] && ([head] + c)[i + 1] == c[i];
        }
      }
      forall i | 0 <= i < |c| + 1 ensures IsSpace(([head] + c)[i]) ==> ([head] + c)[i] == ' ' {
        if i > 0 {
          assert ([head] + c)[i] == c[i - 1];
        }
      }
    }
  }

  /** A suffix of a single-spaced string is single-spaced. */
  lemma SingleSpacedSlice(s: string, i: nat, j: nat)
    requires i <= j <= |s| && SingleSpaced(s)
    ensures SingleSpaced(s[i..j])
  {
    forall p | 0 <= p < j - i - 1 ensures !Adjacent(TwoSpaces, s[i..j][p], s[i..j][p + 1]) {
      assert s[i..j][p] == s[i + p] && s[i..j][p + 1] == s[i + p + 1];
    }
  }

  /** A single-spaced string is its own collapse. */
  lemma {:induction false} CollapseOfSingleSpaced(s: string)
    requires SingleSpaced(s)
    ensures Collapse(s) == s
    decreases |s|
  {
    if s != [] {
      SingleSpacedSlice(s, 1, |s|);
      CollapseOfSingleSpaced(s[1..]);
      if IsSpace(s[0]) {
        assert s[1..] == [] || !IsSpace(s[1..][0]);
        assert LStrip(s[1..]) == s[1..];
      }
    }
  }

  /** A collapsed string ends where the original ends, when that is not whitespace. */
  lemma {:induction false} CollapseLast(s: string)
    requires s != [] && !IsSpace(s[|s| - 1])
    ensures Collapse(s) != [] && Collapse(s)[|Collapse(s)| - 1] == s[|s| - 1]
    decreases |s|
  {
    if IsSpace(s[0]) {
      var rest := LStrip(s[1..]);
      assert s[1..][|s[1..]| - 1] == s[|s| - 1];
      assert rest[|rest| - 1] == s[|s| - 1];
      CollapseLast(rest);
    } else if |s| > 1 {
      assert s[1..][|s[1..]| - 1] == s[|s| - 1];
      CollapseLast(s[1..]);
    }
  }

  /** Collapsing keeps both ends of a stripped string. */
  lemma CollapseStripped(s: string)
    requires IsStripped(s)
    ensures IsStripped(Collapse(s))
  {
    if s != [] {
      CollapseHead(s);
      CollapseLast(s);
    }
  }

  /**
   * `clean_text_spacing` leaves no whitespace at either end and only single spaces inside,
   * and changes nothing but whitespace.
   */
  lemma CleanTextSpacingSpec(text: string)
    ensures var r := CleanTextSpacing(text);
            IsStripped(r) && SingleSpaced(r) && NonSpace(r) == NonSpace(text)
  {
    StripSpec(text);
    CollapseStripped(Strip(text));
    CollapseSingleSpaced(Strip(text));
    CollapseNonSpace(Strip(text));
    StripNonSpace(text);
  }

  /** Cleaning twice is cleaning once. */
  lemma CleanTextSpacingIdempotent(text: string)
    ensures CleanTextSpacing(CleanTextSpacing(text)) == CleanTextSpacing(text)
  {
    var r := CleanTextSpacing(text);
    CleanTextSpacingSpec(text);
    StripOfStripped(r);
    CollapseOfSingleSpaced(r);
  }

  // ----- pair lemmas -----

  /** A slice keeps the absence of a kind of pair. */
  lemma NoPairSlice(s: string, k: PairKind, i: nat, j: nat)
    requires i <= j <= |s| && NoPair(s, k)
    ensures NoPair(s[i..j], k)
  {
    forall p | 0 <= p < j - i - 1 ensures !Adjacent(k, s[i..j][p], s[i..j][p + 1]) {
      assert s[i..j][p] == s[i + p] && s[i..j][p + 1] == s[i + p + 1];
    }
  }

  /** Prepending a character keeps the absence of a pair when it makes no pair with the next one. */
  lemma NoPairCons(c: char, s: string, k: PairKind)
    requires NoPair(s, k) && (s == [] || !Adjacent(k, c, s[0]))
    ensures NoPair([c] + s, k)
  {
    forall p | 0 <= p < |s| ensures !Adjacent(k, ([c] + s)[p], ([c] + s)[p + 1]) {
      if p > 0 {
        assert ([c] + s)[p] == s[p - 1] && ([c] + s)[p + 1] == s[p];
      }
    }
  }

  lemma SeparateHead(s: string, k: PairKind)
    requires k != TwoSpaces
    ensures (SeparatePairs(s, k) == []) <==> (s == [])
    ensures s != [] ==> SeparatePairs(s, k)[0] == s[0]
  {
  }

  /** After the substitution no pair of its own kind is left. */
  lemma {:induction false} SeparateLeavesNoPair(s: string, k: PairKind)
    requires k != TwoSpaces
    ensures NoPair(SeparatePairs(s, k), k)
    decreases |s|
  {
    if |s| >= 2 {
      if Adjacent(k, s[0], s[1]) {
        var rest := SeparatePairs(s[2..], k);
        SeparateLeavesNoPair(s[2..], k);
        SeparateHead(s[2..], k);
        NoPairCons(s[1], rest, k);
        NoPairCons(' ', [s[1]] + rest, k);
        NoPairCons(s[0], [' ', s[1]] + rest, k);
        assert [s[0], ' ', s[1]] + rest == [s[0]] + ([' '] + ([s[1]] + rest));
      } else {
        var rest := SeparatePairs(s[1..], k);
        SeparateLeavesNoPair(s[1..], k);
        SeparateHead(s[1..], k);
        NoPairCons(s[0], rest, k);
      }
    }
  }

  /** The substitution creates no pair of letter and digit that was not there. */
  lemma {:induction false} SeparateKeepsNoPair(s: string, k: PairKind, other: PairKind)
    requires k != TwoSpaces && other != TwoSpaces && NoPair(s, other)
    ensures NoPair(SeparatePairs(s, k), other)
    decreases |s|
  {
    if |s| >= 2 {
      if Adjacent(k, s[0], s[1]) {
        var rest := SeparatePairs(s[2..], k);
        NoPairSlice(s, other, 2, |s|);
        SeparateKeepsNoPair(s[2..], k, other);
        SeparateHead(s[2..], k);
        NoPairCons(s[1], rest, other);
        SpacedPairNoPair(s[0], s[1], rest, other);
      } else {
        var rest := SeparatePairs(s[1..], k);
        NoPairSlice(s, other, 1, |s|);
        SeparateKeepsNoPair(s[1..], k, other);
        SeparateHead(s[1..], k);
        NoPairCons(s[0], rest, other);
      }
    }
  }

  /** A space put between two characters pairs with neither of them. */
  lemma SpacedPairNoPair(a: char, b: char, rest: string, other: PairKind)
    requires other != TwoSpaces && NoPair([b] + rest, other)
    ensures NoPair([a, ' ', b] + rest, other)
  {
    SpaceNeverAdjacent(other, b);
    NoPairCons(' ', [b] + rest, other);
    assert !IsListedLetter(' ') && !IsAsciiDigit(' ');
    NoPairCons(a, [' '] + ([b] + rest), other);
    TripleCons(a, ' ', b, rest);
  }

  /** The substitution only inserts spaces. */
  lemma NonSpaceCons(a: char, rest: string, orig: string)
    requires NonSpace(rest) == NonSpace(orig)
    ensures NonSpace([a] + rest) == NonSpace([a] + orig)
  {
    assert ([a] + rest)[1..] == rest && ([a] + orig)[1..] == orig;
  }

  lemma NonSpaceAroundSpace(a: char, b: char, rest: string, orig: string)
    requires NonSpace(rest) == NonSpace(orig)
    ensures NonSpace([a, ' ', b] + rest) == NonSpace([a, b] + orig)
  {
    NonSpaceCons(b, rest, orig);
    NonSpaceHead([' '] + ([b] + rest));
    NonSpaceCons(a, [' '] + ([b] + rest), [b] + orig);
    TripleCons(a, ' ', b, rest);
    PairCons(a, b, orig);
  }

  lemma {:induction false} SeparateNonSpace(s: string, k: PairKind)
    requires k != TwoSpaces
    ensures NonSpace(SeparatePairs(s, k)) == NonSpace(s)
    decreases |s|
  {
    if |s| >= 2 {
      if Adjacent(k, s[0], s[1]) {
        var rest := SeparatePairs(s[2..], k);
        SeparateNonSpace(s[2..], k);
        assert SeparatePairs(s, k) == [s[0], ' ', s[1]] + rest;
        NonSpaceAroundSpace(s[0], s[1], rest, s[2..]);
        assert s == [s[0], s[1]] + s[2..];
      } else {
        var rest := SeparatePairs(s[1..], k);
        SeparateNonSpace(s[1..], k);
        assert SeparatePairs(s, k) == [s[0]] + rest;
        NonSpaceCons(s[0], rest, s[1..]);
        assert s == [s[0]] + s[1..];
      }
    }
  }

  /** Collapsing whitespace never brings a letter and a digit together. */
  lemma {:induction false} CollapseNoPair(s: string, k: PairKind)
    requires k != TwoSpaces && NoPair(s, k)
    ensures NoPair(Collapse(s), k)
    decreases |s|
  {
    if s != [] {
      var tail := s[1..];
      NoPairSlice(s, k, 1, |s|);
      if IsSpace(s[0]) {
        var rest := LStrip(tail);
        NoPairSlice(tail, k, |tail| - |rest|, |tail|);
        CollapseNoPair(rest, k);
        CollapseNoPairAtSpace(s, k);
      } else {
        CollapseNoPair(tail, k);
        CollapseNoPairAtChar(s, k);
      }
    }
  }

  lemma CollapseNoPairAtSpace(s: string, k: PairKind)
    requires k != TwoSpaces && s != [] && IsSpace(s[0]) && NoPair(Collapse(LStrip(s[1..])), k)
    ensures NoPair(Collapse(s), k)
  {
    var rest := Collapse(LStrip(s[1..]));
    assert Collapse(s) == [' '] + rest;
    if rest != [] {
      SpaceNeverAdjacent(k, rest[0]);
    }
    NoPairCons(' ', rest, k);
  }

  /** A space is neither a listed letter nor a digit. */
  lemma SpaceNeverAdjacent(k: PairKind, b: char)
    requires k != TwoSpaces
    ensures !Adjacent(k, ' ', b)
  {
    assert !IsListedLetter(' ') && !IsAsciiDigit(' ');
  }

  lemma CollapseNoPairAtChar(s: string, k: PairKind)
    requires k != TwoSpaces && s != [] && !IsSpace(s[0]) && NoPair(s, k) && NoPair(Collapse(s[1..]), k)
    ensures NoPair(Collapse(s), k)
  {
    var tail := s[1..];
    assert Collapse(s) == [s[0]] + Collapse(tail);
    CollapseHead(tail);
    if tail != [] {
      assert s[1] == tail[0] && !Adjacent(k, s[0], s[1]);
    }
    ConsNoPair(s[0], tail, Collapse(tail), k);
  }

  /** A character kept in front of the collapsed rest pairs with it no more than with the rest's first character. */
  lemma ConsNoPair(c: char, t: string, rest: string, k: PairKind)
    requires k != TwoSpaces && NoPair(rest, k) && (rest == [] <==> t == [])
    requires t != [] ==> rest[0] == (if IsSpace(t[0]) then ' ' else t[0]) && !Adjacent(k, c, t[0])
    ensures NoPair([c] + rest, k)
  {
    if rest != [] && IsSpace(t[0]) {
      assert !IsListedLetter(' ') && !IsAsciiDigit(' ');
    }
    NoPairCons(c, rest, k);
  }

  /** Stripping is a slice. */
  lemma StripIsSlice(s: string)
    ensures exists i, j :: 0 <= i <= j <= |s| && Strip(s) == s[i..j]
  {
    var l := LStrip(s);
    var r := RStrip(l);
    assert r == s[|s| - |l|..|s| - |l| + |r|];
  }

  /**
   * `fix_word_spacing_issues` leaves no listed letter next to a digit on either side, only
   * single spaces, no whitespace at either end, and changes nothing but whitespace.
   */
  lemma FixWordSpacingSpec(text: string)
    ensures var r := FixWordSpacingIssues(text);
            NoPair(r, LetterThenDigit) && NoPair(r, DigitThenLetter) && SingleSpaced(r) && IsStripped(r)
            && NonSpace(r) == NonSpace(text)
  {
    var a := SeparatePairs(text, LetterThenDigit);
    SeparateLeavesNoPair(text, LetterThenDigit);
    SeparateNonSpace(text, LetterThenDigit);
    var b := SeparatePairs(a, DigitThenLetter);
    SeparateLeavesNoPair(a, DigitThenLetter);
    SeparateKeepsNoPair(a, DigitThenLetter, LetterThenDigit);
    SeparateNonSpace(a, DigitThenLetter);
    var c := Collapse(b);
    CollapseNoPair(b, LetterThenDigit);
    CollapseNoPair(b, DigitThenLetter);
    CollapseSingleSpaced(b);
    CollapseNonSpace(b);
    var r := Strip(c);
    StripSpec(c);
    StripNonSpace(c);
    StripIsSlice(c);
    var i, j :| 0 <= i <= j <= |c| && r == c[i..j];
    NoPairSlice(c, LetterThenDigit, i, j);
    NoPairSlice(c, DigitThenLetter, i, j);
    SingleSpacedSlice(c, i, j);
  }

  /** Without a pair of its kind, the substitution changes nothing. */
  lemma {:induction false} SeparateOfNoPair(s: string, k: PairKind)
    requires k != TwoSpaces && NoPair(s, k)
    ensures SeparatePairs(s, k) == s
    decreases |s|
  {
    if |s| >= 2 {
      NoPairSlice(s, k, 1, |s|);
      SeparateOfNoPair(s[1..], k);
      ConsSplit(s);
    }
  }

  /** `fix_word_spacing_issues` leaves a text of the shape it produces unchanged. */
  lemma FixWordSpacingOfFixed(s: string)
    requires NoPair(s, LetterThenDigit) && NoPair(s, DigitThenLetter) && SingleSpaced(s) && IsStripped(s)
    ensures FixWordSpacingIssues(s) == s
  {
    SeparateOfNoPair(s, LetterThenDigit);
    SeparateOfNoPair(s, DigitThenLetter);
    CollapseOfSingleSpaced(s);
    StripOfStripped(s);
  }

  /** Fixing twice is fixing once. */
  lemma FixWordSpacingIdempotent(text: string)
    ensures FixWordSpacingIssues(FixWordSpacingIssues(text)) == FixWordSpacingIssues(text)
  {
    FixWordSpacingSpec(text);
    FixWordSpacingOfFixed(FixWordSpacingIssues(text));
  }

  /** No character of `s` is whitespace. */
  predicate NoWhitespace(s: string) {
    forall i :: 0 <= i < |s| ==> !IsSpace(s[i])
  }

  /** No character of `s` is an ASCII digit. */
  predicate NoDigit(s: string) {
    forall i :: 0 <= i < |s| ==> !IsAsciiDigit(s[i])
  }

  lemma NoDigitAppend(a: string, b: string)
    requires NoDigit(a) && NoDigit(b)
    ensures NoDigit(a + b)
  {
    forall i | 0 <= i < |a + b| ensures !IsAsciiDigit((a + b)[i]) {
      if i < |a| {
        assert (a + b)[i] == a[i];
      } else {
        assert (a + b)[i] == b[i - |a|];
      }
    }
  }

  /** Both kinds of pair need a digit. */
  lemma NoDigitNoPair(s: string)
    requires NoDigit(s)
    ensures NoPair(s, LetterThenDigit) && NoPair(s, DigitThenLetter)
  {
  }

  /** A word without whitespace passes through the collapse unchanged. */
  lemma {:induction false} CollapseWord(a: string, t: string)
    requires NoWhitespace(a)
    ensures Collapse(a + t) == a + Collapse(t)
    decreases |a|
  {
    if a != [] {
      HeadOfAppend(a, t);
      CollapseWord(a[1..], t);
      AppendAssoc([a[0]], a[1..], Collapse(t));
      ConsSplit(a);
    } else {
      assert a + t == t;
    }
  }

  lemma CollapseOfWord(a: string)
    requires NoWhitespace(a)
    ensures Collapse(a) == a
  {
    CollapseWord(a, []);
    assert a + [] == a;
  }

  /** A whitespace run before a non-space character becomes one space. */
  lemma CollapseRun(w: string, t: string)
    requires w != [] && AllSpace(w) && t != [] && !IsSpace(t[0])
    ensures Collapse(w + t) == " " + Collapse(t)
  {
    HeadOfAppend(w, t);
    assert AllSpace(w[1..]);
    LStripSpaces(w[1..], t);
  }

  // ----- acronym lemmas -----

  /** The characters of `s` other than periods, in order. */
  function Undotted(s: string): string
    decreases |s|
  {
    if s == [] then [] else (if s[0] == '.' then [] else [s[0]]) + Undotted(s[1..])
  }

  lemma {:induction false} UndottedAppend(a: string, b: string)
    ensures Undotted(a + b) == Undotted(a) + Undotted(b)
    decreases |a|
  {
    if a == [] {
      assert a + b == b;
    } else {
      assert (a + b)[0] == a[0] && (a + b)[1..] == a[1..] + b;
      UndottedAppend(a[1..], b);
    }
  }

  lemma {:induction false} UndottedDotted(s: string)
    requires forall k :: 0 <= k < |s| ==> IsAsciiUpper(s[k])
    ensures Undotted(Dotted(s)) == s && Undotted(s) == s
    decreases |s|
  {
    if s != [] {
      UndottedDotted(s[1..]);
      UndottedAppend([s[0], '.'], Dotted(s[1..]));
      assert [s[0], '.'][1..] == ['.'];
    }
  }

  /** Expansion only inserts periods: without them the text is as it was. */
  lemma {:induction false} ExpandOnlyAddsPeriods(s: string, afterWord: bool)
    ensures Undotted(Expand(s, afterWord)) == Undotted(s)
    decreases |s|
  {
    if s != [] {
      if AcronymAhead(s, afterWord) {
        var n := UpperRun(s);
        ExpandOnlyAddsPeriods(s[n..], true);
        UndottedAppend(Dotted(s[..n]), Expand(s[n..], true));
        UndottedDotted(s[..n]);
        assert s == s[..n] + s[n..];
        UndottedAppend(s[..n], s[n..]);
      } else {
        ExpandOnlyAddsPeriods(s[1..], IsWordChar(s[0]));
        UndottedAppend([s[0]], Expand(s[1..], IsWordChar(s[0])));
      }
    }
  }

  /** A character other than a period survives the removal of periods exactly when it was there. */
  lemma {:induction false} InUndotted(s: string, c: char)
    requires c != '.'
    ensures c in Undotted(s) <==> c in s
    decreases |s|
  {
    if s != [] {
      InUndotted(s[1..], c);
      assert s == [s[0]] + s[1..];
    }
  }

  /** Expansion brings in no character but the period. */
  lemma ExpandKeepsCharacters(text: string, c: char)
    requires c != '.'
    ensures c in ExpandAcronyms(text) <==> c in text
  {
    ExpandOnlyAddsPeriods(text, false);
    InUndotted(ExpandAcronyms(text), c);
    InUndotted(text, c);
  }

  lemma {:induction false} ExpandPlainFrom(s: string, i: nat)
    requires i <= |s|
    requires forall j :: i <= j < |s| ==> !AcronymAt(s, j)
    ensures Expand(s[i..], i > 0 && IsWordChar(s[i - 1])) == s[i..]
    decreases |s| - i
  {
    if i < |s| {
      assert !AcronymAt(s, i);
      ExpandPlainFrom(s, i + 1);
      assert s[i..][1..] == s[i + 1..];
      assert s[i..] == [s[i]] + s[i + 1..];
    }
  }

  /** Text without a whole word of two or more capitals is left unchanged. */
  lemma ExpandWithoutAcronyms(text: string)
    requires forall i :: 0 <= i < |text| ==> !AcronymAt(text, i)
    ensures ExpandAcronyms(text) == text
  {
    ExpandPlainFrom(text, 0);
    assert text[0..] == text;
  }

  /** A whole-word acronym at the front is expanded, and the scan resumes right after it. */
  lemma ExpandAcronymAhead(s: string)
    requires AcronymAt(s, 0)
    ensures var n := UpperRun(s);
            2 <= n && ExpandAcronyms(s) == Dotted(s[..n]) + Expand(s[n..], true)
  {
    assert s[0..] == s;
  }

  /**
   * No whole-word run of two or more capitals starts at any position of `e`, reading the
   * character before position 0 as a word character exactly when `afterWord`.
   */
  predicate NoAcronymFrom(e: string, afterWord: bool) {
    forall i :: 0 <= i < |e| ==> !AcronymAhead(e[i..], if i > 0 then IsWordChar(e[i - 1]) else afterWord)
  }

  /** After a word character, no acronym can start: the next character is copied. */
  lemma ExpandAfterWordHead(t: string)
    requires t != []
    ensures Expand(t, true) == [t[0]] + Expand(t[1..], IsWordChar(t[0]))
  {
  }

  /** After a word character, a leading run of `k` word characters is copied as it is. */
  lemma {:induction false} ExpandCopiesWord(s: string, k: nat)
    requires k <= |s| && forall j :: 0 <= j < k ==> IsWordChar(s[j])
    ensures Expand(s, true) == s[..k] + Expand(s[k..], true)
    decreases k
  {
    if k == 0 {
      assert s[..0] == [] && s[0..] == s;
    } else {
      ExpandAfterWordHead(s);
      ExpandCopiesWord(s[1..], k - 1);
      assert s[1..][..k - 1] == s[1..k] && s[1..][k - 1..] == s[k..];
      assert s[..k] == [s[0]] + s[1..k];
      AppendAssoc([s[0]], s[1..k], Expand(s[k..], true));
    }
  }

  /** A character copied because no acronym starts at it still starts none in the output. */
  lemma HeadKeepsNoAcronym(s: string, afterWord: bool)
    requires s != [] && !AcronymAhead(s, afterWord)
    ensures !AcronymAhead([s[0]] + Expand(s[1..], IsWordChar(s[0])), afterWord)
  {
    if !afterWord && IsAsciiUpper(s[0]) {
      var n := UpperRun(s);
      assert n == 1 + UpperRun(s[1..]);
      forall j | 0 <= j < n - 1 ensures IsWordChar(s[1..][j]) {
        assert s[1..][j] == s[j + 1];
      }
      ExpandCopiesWord(s[1..], n - 1);
      assert s[1..][..n - 1] == s[1..n] && s[1..][n - 1..] == s[n..];
      if n == |s| {
        assert s[1..] == [] && [s[0]] + Expand(s[1..], true) == [s[0]];
        assert UpperRun([s[0]]) == 1 + UpperRun([]);
      } else {
        CapitalsThenBreak(s, n);
      }
    }
  }

  /** The capitals of `s` are copied, and the character that ended their run follows them. */
  lemma CapitalsThenBreak(s: string, n: nat)
    requires 1 <= n < |s| && n == UpperRun(s) && IsAsciiUpper(s[0])
    requires Expand(s[1..], true) == s[1..n] + Expand(s[n..], true)
    ensures UpperRun([s[0]] + Expand(s[1..], true)) == n
    ensures ([s[0]] + Expand(s[1..], true))[n] == s[n]
  {
    var tail := Expand(s[n + 1..], IsWordChar(s[n]));
    ExpandAfterWordHead(s[n..]);
    assert s[n..][1..] == s[n + 1..];
    var out := [s[0]] + Expand(s[1..], true);
    assert out == s[..n] + ([s[n]] + tail) by {
      assert s[..n] == [s[0]] + s[1..n];
      AppendAssoc([s[0]], s[1..n], [s[n]] + tail);
    }
    UpperRunOf(s[..n], [s[n]] + tail);
  }

  /** A character in front keeps the output free of acronyms when none starts at it. */
  lemma ConsNoAcronym(c: char, e: string, afterWord: bool)
    requires !AcronymAhead([c] + e, afterWord) && NoAcronymFrom(e, IsWordChar(c))
    ensures NoAcronymFrom([c] + e, afterWord)
  {
    var ce := [c] + e;
    forall i | 0 < i < |ce| ensures !AcronymAhead(ce[i..], IsWordChar(ce[i - 1])) {
      assert ce[i..] == e[i - 1..];
      assert ce[i - 1] == if i - 1 > 0 then e[i - 2] else c;
    }
  }

  /** Dotted letters start no run of two capitals, and neither does a rest that starts with no capital. */
  lemma {:induction false} DottedThenNoAcronym(u: string, r: string, afterWord: bool)
    requires forall k :: 0 <= k < |u| ==> IsAsciiUpper(u[k])
    requires NoAcronymFrom(r, true) && (r == [] || !IsAsciiUpper(r[0]))
    ensures NoAcronymFrom(Dotted(u) + r, afterWord)
    decreases |u|
  {
    if u == [] {
      assert Dotted(u) + r == r;
    } else {
      var d := Dotted(u[1..]) + r;
      DottedThenNoAcronym(u[1..], r, false);
      var e := Dotted(u) + r;
      assert e == [u[0], '.'] + d by {
        AppendAssoc([u[0], '.'], Dotted(u[1..]), r);
      }
      assert e[1..][0] == '.';
      assert UpperRun(e) == 1 + UpperRun(e[1..]);
      forall i | 2 <= i < |e| ensures !AcronymAhead(e[i..], IsWordChar(e[i - 1])) {
        assert e[i..] == d[i - 2..];
        assert e[i - 1] == if i - 2 > 0 then d[i - 3] else '.';
      }
    }
  }

  /** The scan leaves no whole-word run of two or more capitals behind it. */
  lemma {:induction false} ExpandLeavesNoAcronymFrom(s: string, afterWord: bool)
    ensures NoAcronymFrom(Expand(s, afterWord), afterWord)
    decreases |s|
  {
    if s != [] {
      if AcronymAhead(s, afterWord) {
        var n := UpperRun(s);
        var rest := s[n..];
        ExpandLeavesNoAcronymFrom(rest, true);
        if rest != [] {
          ExpandAfterWordHead(rest);
        }
        DottedThenNoAcronym(s[..n], Expand(rest, true), afterWord);
      } else {
        var w := IsWordChar(s[0]);
        ExpandLeavesNoAcronymFrom(s[1..], w);
        HeadKeepsNoAcronym(s, afterWord);
        ConsNoAcronym(s[0], Expand(s[1..], w), afterWord);
      }
    }
  }

  /** Every whole word of two or more capitals is rewritten: none is left in the result. */
  lemma ExpandLeavesNoAcronym(text: string)
    ensures forall i :: 0 <= i < |ExpandAcronyms(text)| ==> !AcronymAt(ExpandAcronyms(text), i)
  {
    ExpandLeavesNoAcronymFrom(text, false);
  }

  /** Expanding an expanded text changes nothing: `N.A.S.A.` is left alone. */
  lemma ExpandIdempotent(text: string)
    ensures ExpandAcronyms(ExpandAcronyms(text)) == ExpandAcronyms(text)
  {
    ExpandLeavesNoAcronym(text);
    ExpandWithoutAcronyms(ExpandAcronyms(text));
  }

  /** A prefix ending in a character that is not a capital ends its capital run too. */
  lemma {:induction false} UpperRunPrefix(p: string, q: string)
    requires p != [] && !IsAsciiUpper(p[|p| - 1])
    ensures UpperRun(p + q) == UpperRun(p) < |p|
    decreases |p|
  {
    if IsAsciiUpper(p[0]) {
      assert (p + q)[0] == p[0] && (p + q)[1..] == p[1..] + q;
      UpperRunPrefix(p[1..], q);
    } else {
      assert (p + q)[0] == p[0];
    }
  }

  /** The scan never looks across a character that is not a word character. */
  lemma {:induction false} ExpandSplitAt(p: string, q: string, afterWord: bool)
    requires p != [] && !IsWordChar(p[|p| - 1])
    ensures Expand(p + q, afterWord) == Expand(p, afterWord) + Expand(q, false)
    decreases |p|
  {
    UpperRunPrefix(p, q);
    if AcronymAhead(p, afterWord) {
      ExpandSplitAt(p[UpperRun(p)..], q, true);
      SplitAcronymStep(p, q, afterWord);
    } else if |p| > 1 {
      ExpandSplitAt(p[1..], q, IsWordChar(p[0]));
      SplitCharStep(p, q, afterWord);
    } else {
      assert p == [p[0]];
      SplitLastChar(p[0], q, afterWord);
    }
  }

  lemma SplitAcronymStep(p: string, q: string, afterWord: bool)
    requires p != [] && AcronymAhead(p, afterWord)
    requires UpperRun(p + q) == UpperRun(p) < |p|
    requires Expand(p[UpperRun(p)..] + q, true) == Expand(p[UpperRun(p)..], true) + Expand(q, false)
    ensures Expand(p + q, afterWord) == Expand(p, afterWord) + Expand(q, false)
  {
    var n := UpperRun(p);
    AcronymAheadOfPrefix(p, q, afterWord);
    SlicesOfAppend(p, q, n);
    ExpandAcronymCase(p + q, afterWord);
    ExpandAcronymCase(p, afterWord);
    AppendAssoc(Dotted(p[..n]), Expand(p[n..], true), Expand(q, false));
  }

  /** Where an acronym starts, its letters are dotted and the scan resumes after them. */
  lemma ExpandAcronymCase(s: string, afterWord: bool)
    requires s != [] && AcronymAhead(s, afterWord)
    ensures Expand(s, afterWord) == Dotted(s[..UpperRun(s)]) + Expand(s[UpperRun(s)..], true)
  {
  }

  /** Whether an acronym starts is decided within `p` when `p` ends its capital run. */
  lemma AcronymAheadOfPrefix(p: string, q: string, afterWord: bool)
    requires p != [] && UpperRun(p + q) == UpperRun(p) < |p|
    ensures AcronymAhead(p + q, afterWord) == AcronymAhead(p, afterWord)
  {
    assert (p + q)[UpperRun(p)] == p[UpperRun(p)];
  }

  lemma SplitCharStep(p: string, q: string, afterWord: bool)
    requires |p| > 1 && !AcronymAhead(p, afterWord)
    requires UpperRun(p + q) == UpperRun(p) < |p|
    requires Expand(p[1..] + q, IsWordChar(p[0])) == Expand(p[1..], IsWordChar(p[0])) + Expand(q, false)
    ensures Expand(p + q, afterWord) == Expand(p, afterWord) + Expand(q, false)
  {
    AcronymAheadOfPrefix(p, q, afterWord);
    HeadOfAppend(p, q);
    ExpandCharCase(p + q, afterWord);
    ExpandCharCase(p, afterWord);
    AppendAssoc([p[0]], Expand(p[1..], IsWordChar(p[0])), Expand(q, false));
  }

  /** Where no acronym starts, the first character is copied. */
  lemma ExpandCharCase(s: string, afterWord: bool)
    requires s != [] && !AcronymAhead(s, afterWord)
    ensures Expand(s, afterWord) == [s[0]] + Expand(s[1..], IsWordChar(s[0]))
  {
  }

  /** A last character that is not a word character is copied, and the scan goes on as at a start. */
  lemma SplitLastChar(c: char, q: string, afterWord: bool)
    requires !IsWordChar(c)
    ensures Expand([c] + q, afterWord) == Expand([c], afterWord) + Expand(q, false)
  {
    assert UpperRun([c] + q) == 0 && UpperRun([c]) == 0;
    assert ([c] + q)[1..] == q && [c][1..] == [];
  }

  /** `expand_acronyms` works word by word: it distributes over a cut after a non-word character. */
  lemma ExpandAcronymsSplit(p: string, q: string)
    requires p == [] || !IsWordChar(p[|p| - 1])
    ensures ExpandAcronyms(p + q) == ExpandAcronyms(p) + ExpandAcronyms(q)
  {
    if p == [] {
      assert p + q == q;
    } else {
      ExpandSplitAt(p, q, false);
    }
  }

  /** Capitals followed by a non-word character form an acronym at the front. */
  lemma AcronymAtFront(u: string, r: string)
    requires |u| >= 2 && forall k :: 0 <= k < |u| ==> IsAsciiUpper(u[k])
    requires r == [] || !IsWordChar(r[0])
    ensures AcronymAt(u + r, 0) && UpperRun(u + r) == |u|
    ensures (u + r)[..|u|] == u && (u + r)[|u|..] == r
  {
    UpperRunOf(u, r);
    var ur := u + r;
    assert ur[..|u|] == u && ur[|u|..] == r;
    assert ur[0..] == ur;
  }

  /** A whole word `u` of two or more capitals is dotted wherever it stands, and nothing around it changes because of it. */
  lemma AcronymDottedAnywhere(p: string, u: string, r: string)
    requires p == [] || !IsWordChar(p[|p| - 1])
    requires |u| >= 2 && forall k :: 0 <= k < |u| ==> IsAsciiUpper(u[k])
    requires r == [] || !IsWordChar(r[0])
    ensures ExpandAcronyms(p + u + r) == ExpandAcronyms(p) + Dotted(u) + ExpandAcronyms(r)
  {
    var ur := u + r;
    AppendAssoc(p, u, r);
    ExpandAcronymsSplit(p, ur);
    AcronymAtFront(u, r);
    ExpandAcronymAhead(ur);
    if r != [] {
      ExpandAfterWordHead(r);
      assert UpperRun(r) == 0;
    }
    AppendAssoc(ExpandAcronyms(p), Dotted(u), ExpandAcronyms(r));
  }

  // ----- examples -----

  lemma AcronymExamples()
    ensures ExpandAcronyms("NASA") == "N.A.S.A."
    ensures ExpandAcronyms("NASAs") == "NASAs"
    ensures ExpandAcronyms("NASA's") == "N.A.S.A.'s"
  {
    assert "NASA" + "" == "NASA" && "N.A.S.A." + "" == "N.A.S.A.";
    NasaExpands("");
    assert "NASA" + "'s" == "NASA's" && "N.A.S.A." + "'s" == "N.A.S.A.'s";
    NasaExpands("'s");
    WordAfterCapitalsKept();
  }

  /** An acronym inside a sentence is dotted: "I love NASA" becomes "I love N.A.S.A.". */
  lemma AcronymInSentence()
    ensures ExpandAcronyms("I love " + "NASA") == "I love " + "N.A.S.A."
  {
    var p := "I love ";
    AcronymDottedAnywhere(p, "NASA", "");
    assert p + "NASA" + "" == p + "NASA";
    assert ExpandAcronyms("") == "";
    SentencePrefixKept();
    DottedNasa();
  }

  /** An acronym already dotted is left alone. */
  lemma DottedAcronymKept()
    ensures ExpandAcronyms("N.A.S.A.") == "N.A.S.A."
  {
    AcronymExamples();
    ExpandIdempotent("NASA");
  }

  lemma DottedNasa()
    ensures Dotted("NASA") == "N.A.S.A."
  {
    assert "NASA"[1..] == "ASA" && "ASA"[1..] == "SA" && "SA"[1..] == "A" && "A"[1..] == [];
  }

  lemma SentencePrefixKept()
    ensures ExpandAcronyms("I love ") == "I love "
  {
    assert "I " + "love " == "I love ";
    ExpandAcronymsSplit("I ", "love ");
    SingleCapitalKept();
    LowerWordKept();
  }

  lemma SingleCapitalKept()
    ensures ExpandAcronyms("I ") == "I "
  {
    assert UpperRun("I ") == 1 + UpperRun(" ");
    assert "I "[1..] == " " && " "[1..] == [];
  }

  lemma LowerWordKept()
    ensures ExpandAcronyms("love ") == "love "
  {
    NoCapitalsKept("love ");
  }

  /** A text without capitals is left as it is. */
  lemma NoCapitalsKept(s: string)
    requires forall i :: 0 <= i < |s| ==> !IsAsciiUpper(s[i])
    ensures ExpandAcronyms(s) == s
  {
    forall i | 0 <= i < |s| ensures !AcronymAt(s, i) {
      assert s[i..][0] == s[i];
    }
    ExpandWithoutAcronyms(s);
  }

  /** `NASA` as a whole word, followed by `rest` that starts with no word character. */
  lemma NasaExpands(rest: string)
    requires rest == "" || rest == "'s"
    ensures ExpandAcronyms("NASA" + rest) == "N.A.S.A." + rest
  {
    var s := "NASA" + rest;
    UpperRunOf("NASA", rest);
    assert s[..4] == "NASA" && s[4..] == rest && s[0..] == s;
    assert AcronymAt(s, 0);
    ExpandAcronymAhead(s);
    assert Dotted("NASA") == "N.A.S.A." by {
      assert "NASA"[1..] == "ASA" && "ASA"[1..] == "SA" && "SA"[1..] == "A" && "A"[1..] == [];
    }
    if rest == "'s" {
      assert Expand(rest, true) == rest by {
        assert rest[1..] == "s";
        assert "s"[1..] == [];
      }
    }
  }

  /** The run of capitals at the front of `u + rest` is exactly `u` when `rest` does not start with one. */
  lemma {:induction false} UpperRunOf(u: string, rest: string)
    requires forall k :: 0 <= k < |u| ==> IsAsciiUpper(u[k])
    requires rest == [] || !IsAsciiUpper(rest[0])
    ensures UpperRun(u + rest) == |u|
    decreases |u|
  {
    if u == [] {
      assert u + rest == rest;
    } else {
      assert (u + rest)[0] == u[0] && (u + rest)[1..] == u[1..] + rest;
      UpperRunOf(u[1..], rest);
    }
  }

  /** Capitals followed by a lower-case letter are not a whole word, and are kept. */
  lemma WordAfterCapitalsKept()
    ensures ExpandAcronyms("NASAs") == "NASAs"
  {
    var s := "NASAs";
    assert UpperRun(s) == 4;
    assert !AcronymAhead(s, false);
    ExpandWordChars(s[1..]);
  }

  /** After a word character, a run of word characters is copied as it is. */
  lemma {:induction false} ExpandWordChars(s: string)
    requires forall i :: 0 <= i < |s| ==> IsWordChar(s[i])
    ensures Expand(s, true) == s
    decreases |s|
  {
    if s != [] {
      assert !AcronymAhead(s, true);
      ExpandWordChars(s[1..]);
      assert s == [s[0]] + s[1..];
    }
  }

  lemma SpacingExample()
    ensures FixWordSpacingIssues("meinem1er") == "meinem 1 er"
  {
    LetterDigitPass();
    DigitLetterPass();
    SpacingTidy();
  }

  /** The first substitution puts a space between `m` and `1`. */
  lemma LetterDigitPass()
    ensures SeparatePairs("meinem1er", LetterThenDigit) == "meinem 1er"
  {
    var k := LetterThenDigit;
    assert SeparatePairs("er", k) == "er";
    assert SeparatePairs("m1er", k) == "m 1er" by {
      assert "m1er"[2..] == "er";
    }
    assert SeparatePairs("em1er", k) == "em 1er" by {
      assert "em1er"[1..] == "m1er";
    }
    assert SeparatePairs("nem1er", k) == "nem 1er" by {
      assert "nem1er"[1..] == "em1er";
    }
    assert SeparatePairs("inem1er", k) == "inem 1er" by {
      assert "inem1er"[1..] == "nem1er";
    }
    assert SeparatePairs("einem1er", k) == "einem 1er" by {
      assert "einem1er"[1..] == "inem1er";
    }
    assert "meinem1er"[1..] == "einem1er";
  }

  /** The second substitution puts a space between `1` and `e`. */
  lemma DigitLetterPass()
    ensures SeparatePairs("meinem 1er", DigitThenLetter) == "meinem 1 er"
  {
    var d := DigitThenLetter;
    assert SeparatePairs("1er", d) == "1 er" by {
      assert "1er"[2..] == "r";
    }
    assert SeparatePairs(" 1er", d) == " 1 er" by {
      assert " 1er"[1..] == "1er";
    }
    SeparatePlain("meinem", " 1er", d);
    assert "meinem" + " 1er" == "meinem 1er";
    assert "meinem" + " 1 er" == "meinem 1 er";
  }

  /** The collapse and the strip leave `meinem 1 er` alone. */
  lemma SpacingTidy()
    ensures Strip(Collapse("meinem 1 er")) == "meinem 1 er"
  {
    assert SingleSpaced("meinem 1 er") by {
      var t := "meinem 1 er";
      forall i | 0 <= i < |t| ensures IsSpace(t[i]) ==> t[i] == ' ' {
      }
    }
    CollapseOfSingleSpaced("meinem 1 er");
    StripOfStripped("meinem 1 er");
  }

  /** Where the pattern does not match, the first character is kept and the scan moves on by one. */
  lemma SeparateKeep(s: string, k: PairKind)
    requires k != TwoSpaces && |s| >= 2 && !Adjacent(k, s[0], s[1])
    ensures SeparatePairs(s, k) == [s[0]] + SeparatePairs(s[1..], k)
  {
  }

  /** Letters with no digit among them come through the substitution unchanged. */
  lemma {:induction false} SeparatePlain(p: string, rest: string, k: PairKind)
    requires k != TwoSpaces
    requires forall i :: 0 <= i < |p| ==> IsAsciiLower(p[i])
    requires rest != [] && !IsAsciiDigit(rest[0]) && !IsListedLetter(rest[0])
    ensures SeparatePairs(p + rest, k) == p + SeparatePairs(rest, k)
    decreases |p|
  {
    if p != [] {
      HeadOfAppend(p, rest);
      SeparatePlain(p[1..], rest, k);
      var second := if |p| == 1 then rest[0] else p[1];
      assert (p + rest)[1] == second;
      assert !Adjacent(k, p[0], second);
      SeparateKeep(p + rest, k);
      AppendAssoc([p[0]], p[1..], SeparatePairs(rest, k));
      ConsSplit(p);
    } else {
      assert p + rest == rest && p + SeparatePairs(rest, k) == SeparatePairs(rest, k);
    }
  }
}
