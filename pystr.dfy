/**
 * The parts of Python's `str` and `string` modules that the aligner and the SRT
 * cleaners rely on: whitespace (`str.isspace`, which is also what the regex class
 * `\s` matches on `str` patterns), `strip`, ASCII `lower`, `join`, `string.punctuation`
 * and the substring test `in`, `str(int)` and `int(str)`.
 */
module PyStr {
  import opened Wrappers

  // ----- character classes -----

  /** The characters for which Python's `str.isspace()` holds (and `\s` matches). */
  predicate IsSpace(c: char) {
    ('\t' <= c <= '\r') || ('\U{1C}' <= c <= '\U{1F}') || c == ' ' || c == '\U{85}' || c == '\U{A0}'
    || c == '\U{1680}' || ('\U{2000}' <= c <= '\U{200A}') || c == '\U{2028}' || c == '\U{2029}'
    || c == '\U{202F}' || c == '\U{205F}' || c == '\U{3000}'
  }

  predicate IsAsciiDigit(c: char) { '0' <= c <= '9' }
  predicate IsAsciiUpper(c: char) { 'A' <= c <= 'Z' }
  predicate IsAsciiLower(c: char) { 'a' <= c <= 'z' }
  predicate IsAsciiAlnum(c: char) { IsAsciiDigit(c) || IsAsciiUpper(c) || IsAsciiLower(c) }

  /** The regex class `\w`, restricted to ASCII: letters, digits and underscore. */
  predicate IsWordChar(c: char) { IsAsciiAlnum(c) || c == '_' }

  predicate AllSpace(s: string) { forall i :: 0 <= i < |s| ==> IsSpace(s[i]) }
  predicate AllDigits(s: string) { forall i :: 0 <= i < |s| ==> IsAsciiDigit(s[i]) }

  // ----- lower -----

  function LowerChar(c: char): (r: char)
    ensures IsAsciiUpper(c) ==> IsAsciiLower(r)
    ensures !IsAsciiUpper(c) ==> r == c
  {
    if IsAsciiUpper(c) then (c as int + 32) as char else c
  }

  /** `str.lower()` on ASCII letters; every other character is kept. */
  function Lower(s: string): (r: string)
    ensures |r| == |s|
    ensures forall i :: 0 <= i < |s| ==> r[i] == LowerChar(s[i])
  {
    seq(|s|, i requires 0 <= i < |s| => LowerChar(s[i]))
  }

  lemma LowerIdempotent(s: string)
    ensures Lower(Lower(s)) == Lower(s)
  {
    assert forall i :: 0 <= i < |s| ==> !IsAsciiUpper(Lower(s)[i]);
  }

  // ----- strip -----

  /** `str.lstrip()`: the suffix left after dropping leading whitespace. */
  function LStrip(s: string): (r: string)
    ensures |r| <= |s| && r == s[|s| - |r|..]
    ensures AllSpace(s[..|s| - |r|])
    ensures r == [] || !IsSpace(r[0])
  {
    if s != [] && IsSpace(s[0]) then
      var r := LStrip(s[1..]);
      LStripStep(s, r);
      r
    else s
  }

  lemma LStripStep(s: string, r: string)
    requires s != [] && IsSpace(s[0])
    requires |r| <= |s| - 1 && r == s[1..][|s| - 1 - |r|..] && AllSpace(s[1..][..|s| - 1 - |r|])
    ensures r == s[|s| - |r|..] && AllSpace(s[..|s| - |r|])
  {
    assert s[..|s| - |r|] == [s[0]] + s[1..][..|s| - 1 - |r|];
  }

  /** Leading whitespace before a non-space character is what `lstrip` removes. */
  lemma {:induction false} LStripSpaces(sp: string, t: string)
    requires AllSpace(sp) && t != [] && !IsSpace(t[0])
    ensures LStrip(sp + t) == t
    decreases |sp|
  {
    if sp == [] {
      assert sp + t == t;
    } else {
      assert (sp + t)[0] == sp[0] && (sp + t)[1..] == sp[1..] + t;
      LStripSpaces(sp[1..], t);
    }
  }

  /** `str.rstrip()`: the prefix left after dropping trailing whitespace. */
  function RStrip(s: string): (r: string)
    ensures |r| <= |s| && r == s[..|r|]
    ensures AllSpace(s[|r|..])
    ensures r == [] || !IsSpace(r[|r| - 1])
  {
    if s != [] && IsSpace(s[|s| - 1]) then
      var r := RStrip(s[..|s| - 1]);
      RStripStep(s, r);
      r
    else s
  }

  lemma RStripStep(s: string, r: string)
    requires s != [] && IsSpace(s[|s| - 1])
    requires |r| <= |s| - 1 && r == s[..|s| - 1][..|r|] && AllSpace(s[..|s| - 1][|r|..])
    ensures r == s[..|r|] && AllSpace(s[|r|..])
  {
    assert s[|r|..] == s[..|s| - 1][|r|..] + [s[|s| - 1]];
  }

  /** `str.strip()`. */
  function Strip(s: string): string {
    RStrip(LStrip(s))
  }

  /** What `strip` promises: it removes only whitespace, from both ends, and leaves neither end on whitespace. */
  lemma StripSpec(s: string)
    ensures IsStripped(Strip(s)) && TrimmedFrom(s, Strip(s))
  {
    var l := LStrip(s);
    var r := RStrip(l);
    assert Strip(s) == r;
    TrimmedSlice(s, l, r);
    TrimmedEnds(l, r);
  }

  /** `r` is `s` with some whitespace cut from its front and some from its back, and nothing else. */
  predicate TrimmedFrom(s: string, r: string) {
    exists i :: (0 <= i <= |s| - |r| && s[i..i + |r|] == r
                 && AllSpace(s[..i]) && AllSpace(s[i + |r|..]))
  }

  /** A prefix `r` of a suffix `l` of `s`, each cut only after whitespace, sits in `s` between whitespace. */
  lemma TrimmedSlice(s: string, l: string, r: string)
    requires |l| <= |s| && l == s[|s| - |l|..] && AllSpace(s[..|s| - |l|])
    requires |r| <= |l| && r == l[..|r|] && AllSpace(l[|r|..])
    ensures TrimmedFrom(s, r)
  {
    var i := |s| - |l|;
    assert s[i..i + |r|] == r;
    assert s[i + |r|..] == l[|r|..];
  }

  lemma TrimmedEnds(l: string, r: string)
    requires |r| <= |l| && r == l[..|r|]
    requires l == [] || !IsSpace(l[0])
    requires r == [] || !IsSpace(r[|r| - 1])
    ensures IsStripped(r)
  {
    if r != [] {
      assert l[0] == r[0];
    }
  }

  /** Neither end is whitespace. */
  predicate IsStripped(s: string) {
    s == [] || (!IsSpace(s[0]) && !IsSpace(s[|s| - 1]))
  }

  /** A string that neither starts nor ends with whitespace is its own strip. */
  lemma StripOfStripped(s: string)
    requires IsStripped(s)
    ensures Strip(s) == s
  {
  }

  lemma StripIdempotent(s: string)
    ensures Strip(Strip(s)) == Strip(s)
  {
    StripSpec(s);
    StripOfStripped(Strip(s));
  }

  // ----- join -----

  /** A prefix one longer is the prefix followed by the next element. */
  lemma SliceSnoc<T>(s: seq<T>, j: nat)
    requires j < |s|
    ensures s[..j + 1] == s[..j] + [s[j]]
  {
  }

  lemma TakeDrop<T>(s: seq<T>, c: nat)
    requires c <= |s|
    ensures s[..c] + s[c..] == s
  {
  }

  /** Cutting a sequence in two and gluing the halves back changes nothing. */
  lemma SplitRejoin<T>(s: seq<T>, c: nat, t: seq<T>)
    requires c <= |s|
    ensures s[..c] + (s[c..] + t) == s + t
  {
    assert s[..c] + s[c..] == s;
  }

  lemma AppendAssoc<T>(a: seq<T>, b: seq<T>, c: seq<T>)
    ensures (a + b) + c == a + (b + c)
  {
  }

  /** A non-empty sequence is its first element followed by the rest. */
  lemma ConsSplit<T>(s: seq<T>)
    requires s != []
    ensures s == [s[0]] + s[1..]
  {
  }

  /** A sequence of two or more is its first two elements followed by the rest. */
  lemma PairSplit<T>(s: seq<T>)
    requires |s| >= 2
    ensures s == [s[0], s[1]] + s[2..]
  {
  }

  lemma HeadOfAppend<T>(a: seq<T>, b: seq<T>)
    requires a != []
    ensures (a + b)[0] == a[0] && (a + b)[1..] == a[1..] + b
  {
  }

  lemma SlicesOfAppend<T>(a: seq<T>, b: seq<T>, n: nat)
    requires n <= |a|
    ensures (a + b)[..n] == a[..n] && (a + b)[n..] == a[n..] + b
  {
  }

  lemma PairCons<T>(a: T, b: T, t: seq<T>)
    ensures [a, b] + t == [a] + ([b] + t)
  {
  }

  /** A non-empty sequence is its front followed by its last element. */
  lemma TripleCons<T>(a: T, b: T, c: T, t: seq<T>)
    ensures [a, b, c] + t == [a] + ([b] + ([c] + t))
  {
  }

  lemma LastSplit<T>(s: seq<T>)
    requires s != []
    ensures s == s[..|s| - 1] + [s[|s| - 1]]
  {
  }

  lemma SnocParts<T>(front: seq<T>, x: T)
    ensures (front + [x])[..|front|] == front && (front + [x])[|front|] == x
  {
  }

  lemma PrefixParts<T>(s: seq<T>, i: nat)
    requires 0 < i < |s|
    ensures |s[..i + 1]| == i + 1 && s[..i + 1][..i] == s[..i]
    ensures s[..i + 1][i] == s[i] && s[..i + 1][i - 1] == s[i - 1]
  {
  }


  /** `sep.join(parts)`. */
  function Join(sep: string, parts: seq<string>): string
    decreases |parts|
  {
    if parts == [] then "" else if |parts| == 1 then parts[0] else parts[0] + sep + Join(sep, parts[1..])
  }

  /** `"".join(parts)`. */
  function Concat(parts: seq<string>): string
    decreases |parts|
  {
    if parts == [] then "" else parts[0] + Concat(parts[1..])
  }

  lemma ConcatAppend(a: seq<string>, b: seq<string>)
    ensures Concat(a + b) == Concat(a) + Concat(b)
    decreases |a|
  {
    if a == [] {
      assert a + b == b;
    } else {
      assert (a + b)[0] == a[0] && (a + b)[1..] == a[1..] + b;
      ConcatAppend(a[1..], b);
      calc {
        Concat(a + b);
        a[0] + Concat(a[1..] + b);
        a[0] + (Concat(a[1..]) + Concat(b));
        (a[0] + Concat(a[1..])) + Concat(b);
        Concat(a) + Concat(b);
      }
    }
  }

  // ----- string.punctuation and the `in` test -----

  /** Python's `string.punctuation`: the 32 ASCII punctuation characters. */
  const Punctuation: string := "!\"#$%&'()*+,-./:;<=>?@[\\]^_`{|}~"

  /** `s.startswith(t)`. */
  predicate StartsWith(s: string, t: string) {
    |t| <= |s| && s[..|t|] == t
  }

  /** `t in s` on strings: `t` occurs in `s` as a substring, at some suffix's start. */
  predicate Contains(s: string, t: string)
    decreases |s|
  {
    StartsWith(s, t) || (s != "" && Contains(s[1..], t))
  }

  /** `t in string.punctuation`: a SUBSTRING test, so `""`, `"./"` and `"()*"` pass it. */
  predicate InPunctuation(t: string) {
    exists i, j | 0 <= i <= j <= |Punctuation| :: Punctuation[i..j] == t
  }

  /** `all(ch in string.punctuation for ch in t)`: a per-character test (true of `""`). */
  predicate AllPunctuation(t: string) {
    forall k :: 0 <= k < |t| ==> t[k] in Punctuation
  }

  /** The two tests differ: a punctuation string of characters that are not adjacent in `string.punctuation`. */
  lemma PunctuationTestsDiffer()
    ensures AllPunctuation("?!") && !InPunctuation("?!")
    ensures InPunctuation("") && InPunctuation("./")
  {
    assert Punctuation[13..15] == "./";
    assert Punctuation[0..0] == "";
    PunctuationAscending();
    forall i, j | 0 <= i <= j <= |Punctuation| ensures Punctuation[i..j] != "?!" {
      if j - i == 2 {
        assert Punctuation[i..j][0] == Punctuation[i] && Punctuation[i..j][1] == Punctuation[i + 1];
      }
    }
  }

  /** `string.punctuation` lists its characters in ASCII order, so `?` is never followed by `!`. */
  lemma PunctuationAscending()
    ensures forall k :: 0 < k < |Punctuation| ==> Punctuation[k - 1] < Punctuation[k]
  {
  }

  // ----- decimal numbers -----

  function DigitChar(d: nat): (c: char)
    requires d < 10
    ensures IsAsciiDigit(c)
  {
    ('0' as int + d) as char
  }

  function DigitValue(c: char): (d: nat)
    requires IsAsciiDigit(c)
    ensures d < 10
  {
    c as int - '0' as int
  }

  /** `str(n)` for a non-negative integer. */
  function NatToString(n: nat): (r: string)
    ensures r != [] && AllDigits(r)
    decreases n
  {
    if n < 10 then [DigitChar(n)] else NatToString(n / 10) + [DigitChar(n % 10)]
  }

  /** `str(i)` for any integer. */
  function IntToString(i: int): string {
    if i < 0 then "-" + NatToString(-i) else NatToString(i)
  }

  /** The value of a string of ASCII digits (leading zeros allowed, as in `int("007")`). */
  function DigitsValue(s: string): nat
    requires AllDigits(s)
    decreases |s|
  {
    if s == [] then 0 else DigitsValue(s[..|s| - 1]) * 10 + DigitValue(s[|s| - 1])
  }

  lemma {:induction false} DigitsValueOfNatToString(n: nat)
    ensures DigitsValue(NatToString(n)) == n
    decreases n
  {
    var s := NatToString(n);
    if n < 10 {
      assert s[..|s| - 1] == [];
    } else {
      assert s[..|s| - 1] == NatToString(n / 10);
      DigitsValueOfNatToString(n / 10);
    }
  }

  /** `int(s)`: surrounding whitespace, an optional sign, then at least one digit. */
  function ParseInt(s: string): Option<int> {
    ParseStripped(Strip(s))
  }

  /** The sign and the digits, once the whitespace is gone. */
  function ParseStripped(t: string): Option<int> {
    if t != [] && (t[0] == '+' || t[0] == '-') then
      var d := t[1..];
      if d != [] && AllDigits(d) then
        var v: int := DigitsValue(d);
        Some(if t[0] == '-' then -v else v)
      else None
    else if t != [] && AllDigits(t) then Some(DigitsValue(t))
    else None
  }

  /** `int(str(i)) == i`. */
  lemma ParseIntOfIntToString(i: int)
    ensures ParseInt(IntToString(i)) == Some(i)
  {
    var s := IntToString(i);
    assert IsStripped(s) by {
      assert !IsSpace(s[0]) && !IsSpace(s[|s| - 1]);
    }
    StripOfStripped(s);
    if i < 0 {
      ParseNegative(s, -i);
    } else {
      ParseNonNegative(s, i);
    }
  }

  lemma ParseNegative(s: string, n: nat)
    requires s == "-" + NatToString(n)
    ensures ParseStripped(s) == Some(-(n as int))
  {
    assert s[0] == '-' && s[1..] == NatToString(n);
    DigitsValueOfNatToString(n);
  }

  lemma ParseNonNegative(s: string, n: nat)
    requires s == NatToString(n)
    ensures ParseStripped(s) == Some(n)
  {
    assert IsAsciiDigit(s[0]);
    DigitsValueOfNatToString(n);
  }

  // ----- searching -----

  function DigitRunLength(s: string): (n: nat)
    ensures n <= |s| && AllDigits(s[..n]) && (n == |s| || !IsAsciiDigit(s[n]))
    decreases |s|
  {
    if s != [] && IsAsciiDigit(s[0]) then 1 + DigitRunLength(s[1..]) else 0
  }

  /** Position of the first ASCII digit, or `|s|` when there is none. */
  function FirstDigitPos(s: string): (i: nat)
    ensures i <= |s| && (i == |s| || IsAsciiDigit(s[i]))
    ensures forall k :: 0 <= k < i ==> !IsAsciiDigit(s[k])
    decreases |s|
  {
    if s == [] || IsAsciiDigit(s[0]) then 0 else 1 + FirstDigitPos(s[1..])
  }

  /** `re.search(r"(\d+)", s)`: the leftmost, longest run of digits, as its start and end. */
  function FirstDigitRun(s: string): (r: Option<(nat, nat)>)
    ensures r.None? <==> forall k :: 0 <= k < |s| ==> !IsAsciiDigit(s[k])
    ensures r.Some? ==> r.value.0 < r.value.1 <= |s| && AllDigits(s[r.value.0..r.value.1])
    ensures r.Some? ==> (forall k :: 0 <= k < r.value.0 ==> !IsAsciiDigit(s[k]))
                        && (r.value.1 == |s| || !IsAsciiDigit(s[r.value.1]))
  {
    var i := FirstDigitPos(s);
    if i == |s| then None
    else
      var n := DigitRunLength(s[i..]);
      assert s[i..i + n] == s[i..][..n];
      Some((i, i + n))
  }

  /** Index of the first occurrence of `c`. */
  function IndexOf(s: string, c: char): (i: nat)
    requires c in s
    ensures i < |s| && s[i] == c && c !in s[..i]
    decreases |s|
  {
    if s[0] == c then 0 else 1 + IndexOf(s[1..], c)
  }

  /** The first `c` of `p + [c] + d`, when `p` has none, is the one after `p`. */
  lemma {:induction false} IndexOfAfter(p: string, c: char, d: string)
    requires c !in p
    ensures c in p + [c] + d && IndexOf(p + [c] + d, c) == |p|
    decreases |p|
  {
    var s := p + [c] + d;
    assert s[|p|] == c;
    if p != [] {
      IndexOfAfter(p[1..], c, d);
      assert s[1..] == p[1..] + [c] + d;
    }
  }

  /** `s.split(c)[1]`: the piece between the first and the second `c` (or the end). */
  function SecondPiece(s: string, c: char): (r: string)
    requires c in s
    ensures c !in r
  {
    var rest := s[IndexOf(s, c) + 1..];
    if c in rest then rest[..IndexOf(rest, c)] else rest
  }
}
