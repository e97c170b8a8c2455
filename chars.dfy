/** Character classes and the small string primitives the Python and
    JavaScript code relies on: str.isspace / String.prototype.trim
    whitespace, the regex class \w, ASCII case mapping, strip/trim,
    startswith, includes, str.replace(pattern, replacement, 1) and decimal rendering
    of integers. Case mapping and \w are modelled on ASCII only. */
module Chars {

  datatype Option<+T> = None | Some(value: T)

  /** The two runtimes disagree on what counts as whitespace. */
  datatype Runtime = Python | JavaScript

  /** Python's str.isspace() (also what the regex class \s and str.split()
      use); JavaScript's WhiteSpace and LineTerminator code points (what
      String.prototype.trim removes). Both include \t to \r, the blank,
      U+00A0, U+1680, U+2000 to U+200A, U+2028, U+2029, U+202F, U+205F and
      U+3000; only Python adds U+001C to U+001F and U+0085, only JavaScript
      adds U+FEFF. Nothing between the blank and U+0085 is whitespace. */
  predicate IsSpace(rt: Runtime, c: char)
  {
    if c <= ' ' then
      c == ' ' || ('\t' <= c <= '\r') || (rt == Python && '\U{1c}' <= c)
    else if c < '\U{85}' then false
    else
      c == '\U{a0}' || c == '\U{1680}' || ('\U{2000}' <= c <= '\U{200a}') ||
      c == '\U{2028}' || c == '\U{2029}' || c == '\U{202f}' || c == '\U{205f}' || c == '\U{3000}' ||
      (rt == Python && c == '\U{85}') || (rt == JavaScript && c == '\U{feff}')
  }

  predicate IsPySpace(c: char) { IsSpace(Python, c) }

  predicate IsAsciiLetter(c: char) { ('a' <= c <= 'z') || ('A' <= c <= 'Z') }

  /** The regex class \w, restricted to ASCII. */
  predicate IsWordChar(c: char) { IsAsciiLetter(c) || ('0' <= c <= '9') || c == '_' }

  /** The four characters the punctuators treat as punctuation. */
  predicate IsPunct(c: char) { c == ',' || c == '.' || c == '!' || c == '?' }

  /** The three characters that end a sentence. */
  predicate IsTerminal(c: char) { c == '.' || c == '!' || c == '?' }

  function Upper(c: char): (u: char)
    ensures 'a' <= c <= 'z' ==> 'A' <= u <= 'Z' && u as int == c as int - 32
    ensures !('a' <= c <= 'z') ==> u == c
  {
    if 'a' <= c <= 'z' then (c as int - 32) as char else c
  }

  function Lower(c: char): (l: char)
    ensures 'A' <= c <= 'Z' ==> 'a' <= l <= 'z' && l as int == c as int + 32
    ensures !('A' <= c <= 'Z') ==> l == c
  {
    if 'A' <= c <= 'Z' then (c as int + 32) as char else c
  }

  function LowerString(s: string): (r: string)
    ensures |r| == |s|
    ensures forall k :: 0 <= k < |s| ==> r[k] == Lower(s[k])
  {
    if s == [] then [] else [Lower(s[0])] + LowerString(s[1..])
  }

  /** Index of the first character at or after i that is not whitespace
      (|s| when there is none). */
  function SkipSpace(rt: Runtime, s: string, i: nat): (j: nat)
    requires i <= |s|
    ensures i <= j <= |s| && (j == |s| || !IsSpace(rt, s[j]))
    ensures forall k :: i <= k < j ==> IsSpace(rt, s[k])
    decreases |s| - i
  {
    if i < |s| && IsSpace(rt, s[i]) then SkipSpace(rt, s, i + 1) else i
  }

  /** Index just past the last character before j, and not before lo, that
      is not whitespace (lo when there is none). */
  function BackSpace(rt: Runtime, s: string, lo: nat, j: nat): (i: nat)
    requires lo <= j <= |s|
    ensures lo <= i <= j && (i == lo || !IsSpace(rt, s[i - 1]))
    ensures forall k :: i <= k < j ==> IsSpace(rt, s[k])
    decreases j
  {
    if j > lo && IsSpace(rt, s[j - 1]) then BackSpace(rt, s, lo, j - 1) else j
  }

  /** Python's str.strip() and JavaScript's String.prototype.trim(): the
      slice between the leading and the trailing whitespace. */
  function Strip(rt: Runtime, s: string): string
  {
    var i := SkipSpace(rt, s, 0);
    s[i..BackSpace(rt, s, i, |s|)]
  }

  /** Strip removes exactly a whitespace prefix and a whitespace suffix,
      and what is left neither starts nor ends with whitespace. */
  lemma StripSpec(rt: Runtime, s: string)
    ensures var i := SkipSpace(rt, s, 0); var j := BackSpace(rt, s, i, |s|);
      Strip(rt, s) == s[i..j] &&
      (forall k :: 0 <= k < i ==> IsSpace(rt, s[k])) &&
      (forall k :: j <= k < |s| ==> IsSpace(rt, s[k]))
    ensures StripEnds(rt, Strip(rt, s))
  {
    var i := SkipSpace(rt, s, 0);
    var j := BackSpace(rt, s, i, |s|);
    var r := s[i..j];
    if r != [] {
      assert r[0] == s[i] && r[|r| - 1] == s[j - 1];
    }
  }

  /** Neither the first nor the last character is whitespace. */
  predicate StripEnds(rt: Runtime, r: string)
  {
    r == [] || (!IsSpace(rt, r[0]) && !IsSpace(rt, r[|r| - 1]))
  }

  /** Text made only of whitespace strips to nothing, and nothing else does. */
  lemma StripEmptyIffAllSpace(rt: Runtime, s: string)
    ensures Strip(rt, s) == [] <==> forall k :: 0 <= k < |s| ==> IsSpace(rt, s[k])
  {
    var i := SkipSpace(rt, s, 0);
    if i < |s| {
      assert BackSpace(rt, s, i, |s|) > i;
    }
  }

  /** Text that neither starts nor ends with whitespace strips to itself. */
  lemma StripOfTrimmed(rt: Runtime, s: string)
    requires s != [] && !IsSpace(rt, s[0]) && !IsSpace(rt, s[|s| - 1])
    ensures Strip(rt, s) == s
  {
    assert SkipSpace(rt, s, 0) == 0;
  }

  /** Text that ends in a visible character strips to the part from its
      first visible character on. */
  lemma StripVisibleEnd(rt: Runtime, s: string)
    requires s != [] && !IsSpace(rt, s[|s| - 1])
    ensures Strip(rt, s) == s[SkipSpace(rt, s, 0)..]
  {
    var i := SkipSpace(rt, s, 0);
    assert BackSpace(rt, s, i, |s|) == |s|;
  }

  /** SkipSpace is the first index at or after i that is not whitespace. */
  lemma SkipSpaceIs(rt: Runtime, s: string, i: nat, j: nat)
    requires i <= j <= |s| && (j == |s| || !IsSpace(rt, s[j]))
    requires forall k :: i <= k < j ==> IsSpace(rt, s[k])
    ensures SkipSpace(rt, s, i) == j
  {
  }

  predicate StartsWith(s: string, prefix: string)
  {
    |prefix| <= |s| && forall k :: 0 <= k < |prefix| ==> s[k] == prefix[k]
  }

  /** sub occurs in s starting at index i. */
  predicate OccursAt(s: string, sub: string, i: nat)
  {
    i + |sub| <= |s| && s[i..i + |sub|] == sub
  }

  /** Index of the first occurrence of sub in s at or after from, or -1,
      as str.find and String.prototype.indexOf report it. */
  function Find(s: string, sub: string, from: nat): (r: int)
    requires from <= |s|
    ensures r == -1 || (from <= r && OccursAt(s, sub, r))
    ensures r == -1 ==> forall i: nat :: from <= i ==> !OccursAt(s, sub, i)
    ensures r != -1 ==> forall i: nat :: from <= i < r ==> !OccursAt(s, sub, i)
    decreases |s| - from
  {
    if from + |sub| > |s| then -1
    else if s[from..from + |sub|] == sub then from
    else Find(s, sub, from + 1)
  }

  /** JavaScript's String.prototype.includes. */
  function Contains(s: string, sub: string): (b: bool)
    ensures b <==> exists i: nat :: OccursAt(s, sub, i)
  {
    Find(s, sub, 0) != -1
  }

  /** Python's str.replace(pattern, replacement, 1): only the first occurrence. */
  function ReplaceOnce(s: string, pattern: string, replacement: string): (r: string)
    requires pattern != []
  {
    var i := Find(s, pattern, 0);
    if i == -1 then s else s[..i] + replacement + s[i + |pattern|..]
  }

  /** When s starts with old, the one replacement happens at the front. */
  lemma ReplaceOnceAtFront(s: string, pattern: string, replacement: string)
    requires pattern != [] && StartsWith(s, pattern)
    ensures ReplaceOnce(s, pattern, replacement) == replacement + s[|pattern|..]
  {
    assert OccursAt(s, pattern, 0);
  }

  predicate IsDigit(c: char) { '0' <= c <= '9' }

  predicate AllDigits(s: string) { forall k :: 0 <= k < |s| ==> IsDigit(s[k]) }

  function DigitChar(d: nat): (c: char)
    requires d < 10
    ensures IsDigit(c) && c as int - '0' as int == d
  {
    ('0' as int + d) as char
  }

  /** Decimal rendering of a natural number, without leading zeros. */
  function NatToString(n: nat): (s: string)
    decreases n
  {
    if n < 10 then [DigitChar(n)] else NatToString(n / 10) + [DigitChar(n % 10)]
  }

  /** The number a string of decimal digits denotes. */
  function DecimalValue(s: string): nat
    requires AllDigits(s)
  {
    if s == [] then 0 else 10 * DecimalValue(s[..|s| - 1]) + (s[|s| - 1] as int - '0' as int)
  }

  /** NatToString is inverted by DecimalValue and has no leading zero. */
  lemma {:induction false} NatToStringRoundTrip(n: nat)
    ensures var s := NatToString(n);
      s != [] && AllDigits(s) && DecimalValue(s) == n && (s[0] == '0' ==> n == 0)
    decreases n
  {
    if n >= 10 {
      NatToStringRoundTrip(n / 10);
      var s := NatToString(n);
      assert s[..|s| - 1] == NatToString(n / 10);
    }
  }

  /** Leading zeros do not change the value of a digit string. */
  lemma {:induction false} DecimalValueLeadingZeros(z: string, s: string)
    requires AllDigits(s) && forall k :: 0 <= k < |z| ==> z[k] == '0'
    ensures AllDigits(z + s) && DecimalValue(z + s) == DecimalValue(s)
    decreases |s|
  {
    if s == [] {
      DecimalValueOfZeros(z);
      assert z + s == z;
    } else {
      DecimalValueLeadingZeros(z, s[..|s| - 1]);
      assert (z + s)[..|z + s| - 1] == z + s[..|s| - 1];
    }
  }

  lemma {:induction false} DecimalValueOfZeros(z: string)
    requires forall k :: 0 <= k < |z| ==> z[k] == '0'
    ensures AllDigits(z) && DecimalValue(z) == 0
    decreases |z|
  {
    if z != [] {
      DecimalValueOfZeros(z[..|z| - 1]);
    }
  }
}
