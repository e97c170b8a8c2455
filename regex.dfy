/** The regular-expression substitutions of the punctuators, written as
    explicit left-to-right scanners. re.sub tries a match at each position
    from left to right; where one is found it emits the replacement and
    resumes after the match, otherwise it copies one character. Every
    pattern here is anchored on a fixed shape of greedy runs (\w+, \s+)
    and literal words, and no backtracking into a shorter run can succeed
    (each run is followed by something the run's class excludes), so the
    match at a position, when there is one, is the one its matcher below computes. */
module Regex {
  import opened Chars

  /** A matcher says whether its pattern matches at a position. The
      patterns of the source, one matcher each:
        MatchConjI            (\w{4,})\s+(and|but|so|because)\s+I\s+  ->  \1, \2 I   (IGNORECASE)
        MatchListAnd          (\w+)\s+and\s+(\w+)                     ->  \1, and \2
        MatchStandaloneI      \bi\b                                   ->  I
        MatchConjComma        \s+(and|but|so|because|while)\s+       ->  , \1
        MatchSentenceI        \.\s+I\s+                               ->  . I
        MatchSpaceBeforePunct \s+([,.!?])                             ->  \1
        MatchPunctLetter      ([,.!?])([A-Za-z])                      ->  \1 \2  */
  type Matcher = (string, nat) -> Option<Hit>

  /** A match: where it ends and the text that replaces it. */
  datatype Hit = Hit(end: nat, text: string)

  /** A match found at p lies within the text, consumes at least one
      character and is replaced by at least one. */
  predicate ValidHit(t: string, p: nat, h: Hit)
  {
    p < h.end <= |t| && h.text != []
  }

  /** End of the maximal run of \w characters starting at p. */
  function WordEnd(t: string, p: nat): (q: nat)
    requires p <= |t|
    ensures p <= q <= |t|
    ensures forall k :: p <= k < q ==> IsWordChar(t[k])
    ensures q == |t| || !IsWordChar(t[q])
    decreases |t| - p
  {
    if p < |t| && IsWordChar(t[p]) then WordEnd(t, p + 1) else p
  }

  /** End of the maximal run of \s characters starting at p. */
  function SpaceEnd(t: string, p: nat): (q: nat)
    requires p <= |t|
    ensures p <= q <= |t|
    ensures forall k :: p <= k < q ==> IsPySpace(t[k])
    ensures q == |t| || !IsPySpace(t[q])
    decreases |t| - p
  {
    if p < |t| && IsPySpace(t[p]) then SpaceEnd(t, p + 1) else p
  }

  /** t spells w at p, letter by letter, folding ASCII case when ignoreCase. */
  predicate SpellsAt(t: string, p: nat, w: string, ignoreCase: bool)
  {
    p + |w| <= |t| && forall k :: 0 <= k < |w| ==> (if ignoreCase then Lower(t[p + k]) else t[p + k]) == w[k]
  }

  /** Index of the first word of ws that t spells at p: the alternation
      (w0|w1|...) tried in order. */
  function WordAt(t: string, p: nat, ws: seq<string>, ignoreCase: bool): (r: Option<nat>)
    ensures r.Some? ==> r.value < |ws| && SpellsAt(t, p, ws[r.value], ignoreCase)
    ensures r.Some? ==> forall j :: 0 <= j < r.value ==> !SpellsAt(t, p, ws[j], ignoreCase)
    ensures r.None? ==> forall j :: 0 <= j < |ws| ==> !SpellsAt(t, p, ws[j], ignoreCase)
  {
    if ws == [] then None
    else if SpellsAt(t, p, ws[0], ignoreCase) then Some(0)
    else match WordAt(t, p, ws[1..], ignoreCase)
      case None => None
      case Some(j) => Some(j + 1)
  }

  const FormattingConjunctions: seq<string> := ["and", "but", "so", "because"]
  const RuleConjunctions: seq<string> := ["and", "but", "so", "because", "while"]

  /** i at k is a whole word: \b on both sides. */
  predicate IsStandaloneI(t: string, k: nat)
    requires k < |t|
  {
    t[k] == 'i' && (k == 0 || !IsWordChar(t[k - 1])) && (k + 1 == |t| || !IsWordChar(t[k + 1]))
  }

  function MatchConjI(t: string, p: nat): (h: Option<Hit>)
    ensures h.Some? ==> ValidHit(t, p, h.value)
  {
    if p >= |t| then None else
    var w := WordEnd(t, p);
    var s1 := SpaceEnd(t, w);
    if w - p < 4 || s1 == w then None
    else match WordAt(t, s1, FormattingConjunctions, true)
      case None => None
      case Some(j) => MatchConjIAfter(t, p, w, s1, s1 + |FormattingConjunctions[j]|)
  }

  /** The rest of the ConjI pattern, \s+I\s+, once the word t[p..w] and the
      conjunction t[c..d] have matched. */
  function MatchConjIAfter(t: string, p: nat, w: nat, c: nat, d: nat): (h: Option<Hit>)
    requires p < w <= c <= d <= |t|
    ensures h.Some? ==> ValidHit(t, p, h.value)
  {
    var s2 := SpaceEnd(t, d);
    if s2 == d || s2 == |t| || (t[s2] != 'I' && t[s2] != 'i') then None
    else
      var s3 := SpaceEnd(t, s2 + 1);
      if s3 == s2 + 1 then None else Some(Hit(s3, t[p..w] + ", " + t[c..d] + " I "))
  }

  function MatchListAnd(t: string, p: nat): (h: Option<Hit>)
    ensures h.Some? ==> ValidHit(t, p, h.value)
  {
    if p >= |t| then None else
    var w := WordEnd(t, p);
    var s1 := SpaceEnd(t, w);
    if w == p || s1 == w || s1 + 3 > |t| || t[s1..s1 + 3] != "and" then None
    else
      var s2 := SpaceEnd(t, s1 + 3);
      var w2 := WordEnd(t, s2);
      if s2 == s1 + 3 || w2 == s2 then None
      else Some(Hit(w2, t[p..w] + ", and " + t[s2..w2]))
  }

  function MatchConjComma(t: string, p: nat): (h: Option<Hit>)
    ensures h.Some? ==> ValidHit(t, p, h.value)
  {
    if p >= |t| then None else
    var s1 := SpaceEnd(t, p);
    if s1 == p then None
    else match WordAt(t, s1, RuleConjunctions, false)
      case None => None
      case Some(j) =>
        var c := RuleConjunctions[j];
        var s2 := SpaceEnd(t, s1 + |c|);
        if s2 == s1 + |c| then None else Some(Hit(s2, ", " + c + " "))
  }

  function MatchSentenceI(t: string, p: nat): (h: Option<Hit>)
    ensures h.Some? ==> ValidHit(t, p, h.value)
  {
    if p >= |t| then None else
    if t[p] != '.' then None
    else
      var s1 := SpaceEnd(t, p + 1);
      if s1 == p + 1 || s1 == |t| || t[s1] != 'I' then None
      else
        var s2 := SpaceEnd(t, s1 + 1);
        if s2 == s1 + 1 then None else Some(Hit(s2, ". I "))
  }

  function MatchSpaceBeforePunct(t: string, p: nat): (h: Option<Hit>)
    ensures h.Some? ==> ValidHit(t, p, h.value)
  {
    if p >= |t| then None else
    var s1 := SpaceEnd(t, p);
    if s1 == p || s1 == |t| || !IsPunct(t[s1]) then None else Some(Hit(s1 + 1, [t[s1]]))
  }

  function MatchPunctLetter(t: string, p: nat): (h: Option<Hit>)
    ensures h.Some? ==> ValidHit(t, p, h.value)
  {
    if p >= |t| then None else
    if IsPunct(t[p]) && p + 1 < |t| && IsAsciiLetter(t[p + 1])
    then Some(Hit(p + 2, [t[p], ' ', t[p + 1]]))
    else None
  }

  function MatchStandaloneI(t: string, p: nat): (h: Option<Hit>)
    ensures h.Some? ==> ValidHit(t, p, h.value)
  {
    if p < |t| && IsStandaloneI(t, p) then Some(Hit(p + 1, "I")) else None
  }

  /** The match of m at p, if m reports a well-formed one. Every matcher
      of this module only reports well-formed matches (their ensures), so
      for them this is m(t, p) itself. */
  function Matched(m: Matcher, t: string, p: nat): (h: Option<Hit>)
    requires p < |t|
    ensures h.Some? ==> ValidHit(t, p, h.value)
  {
    if m(t, p).Some? && ValidHit(t, p, m(t, p).value) then m(t, p) else None
  }

  /** What the scanner emits at p, and where it resumes. */
  function Emit(m: Matcher, t: string, p: nat): (e: Hit)
    requires p < |t|
    ensures ValidHit(t, p, e)
  {
    match Matched(m, t, p)
    case Some(h) => h
    case None => Hit(p + 1, [t[p]])
  }

  /** re.sub(pattern, repl, t[p..]) with no count: every non-overlapping
      match, leftmost first. */
  function SubAll(m: Matcher, t: string, p: nat): string
    requires p <= |t|
    decreases |t| - p
  {
    if p == |t| then [] else Emit(m, t, p).text + SubAll(m, t, Emit(m, t, p).end)
  }

  /** re.sub(pattern, repl, t[p..], count=1): only the leftmost match. */
  function SubFirst(m: Matcher, t: string, p: nat): string
    requires p <= |t|
    decreases |t| - p
  {
    if p == |t| then []
    else match Matched(m, t, p)
      case Some(h) => h.text + t[h.end..]
      case None => [t[p]] + SubFirst(m, t, p + 1)
  }

  lemma WordEndAt(t: string, p: nat, q: nat)
    requires p <= q <= |t| && (forall k :: p <= k < q ==> IsWordChar(t[k])) && (q == |t| || !IsWordChar(t[q]))
    ensures WordEnd(t, p) == q
    decreases q - p
  {
    if p < q { WordEndAt(t, p + 1, q); }
  }

  lemma SpaceEndAt(t: string, p: nat, q: nat)
    requires p <= q <= |t| && (forall k :: p <= k < q ==> IsPySpace(t[k])) && (q == |t| || !IsPySpace(t[q]))
    ensures SpaceEnd(t, p) == q
    decreases q - p
  {
    if p < q { SpaceEndAt(t, p + 1, q); }
  }

  // ---------------------------------------------------------------------
  // Properties of the scanners that hold for every matcher.

  /** The match at q, if any, replaces the text with itself. */
  predicate KeepsText(m: Matcher, t: string, q: nat)
    requires q < |t|
  {
    match Matched(m, t, q)
    case None => true
    case Some(h) => h.text == t[q..h.end]
  }

  /** A substitution that leaves every matched text as it was is the identity. */
  lemma {:induction false} SubAllIdentity(m: Matcher, t: string, p: nat)
    requires p <= |t|
    requires forall q :: p <= q < |t| ==> KeepsText(m, t, q)
    ensures SubAll(m, t, p) == t[p..]
    decreases |t| - p
  {
    if p < |t| {
      var e := Emit(m, t, p);
      assert KeepsText(m, t, p);
      assert e.text == t[p..e.end];
      SubAllIdentity(m, t, e.end);
      SliceSplit(t, p, e.end);
    }
  }

  lemma SliceSplit(t: string, a: nat, b: nat)
    requires a <= b <= |t|
    ensures t[a..] == t[a..b] + t[b..]
  {
  }

  lemma SplitTwo(s: string, j: nat)
    requires j <= |s|
    ensures s == s[..j] + s[j..]
  {
  }

  lemma SplitThree(s: string, a: nat, b: nat)
    requires a <= b <= |s|
    ensures s == s[..a] + s[a..b] + s[b..]
  {
  }

  /** The scan starts with the first character of what it emits at p. */
  lemma SubAllHead(m: Matcher, t: string, p: nat)
    requires p < |t|
    ensures SubAll(m, t, p) != [] && SubAll(m, t, p)[0] == Emit(m, t, p).text[0]
  {
  }

  /** The scan keeps the last character of the text when no match can
      change it: every match ends before the end, or its replacement ends
      with the text's last character. */
  predicate KeepsLast(m: Matcher, t: string, q: nat)
    requires q < |t|
  {
    Matched(m, t, q).None? ||
    Matched(m, t, q).value.end < |t| ||
    Matched(m, t, q).value.text[|Matched(m, t, q).value.text| - 1] == t[|t| - 1]
  }

  lemma {:induction false} SubAllLast(m: Matcher, t: string, p: nat)
    requires p < |t|
    requires forall q :: p <= q < |t| ==> KeepsLast(m, t, q)
    ensures var r := SubAll(m, t, p); r != [] && r[|r| - 1] == t[|t| - 1]
    decreases |t| - p
  {
    var e := Emit(m, t, p);
    assert KeepsLast(m, t, p);
    if e.end < |t| {
      SubAllLast(m, t, e.end);
    }
  }

  lemma {:induction false} SubFirstLast(m: Matcher, t: string, p: nat)
    requires p < |t|
    requires forall q :: p <= q < |t| ==> KeepsLast(m, t, q)
    ensures var r := SubFirst(m, t, p); r != [] && r[|r| - 1] == t[|t| - 1]
    decreases |t| - p
  {
    assert KeepsLast(m, t, p);
    match Matched(m, t, p)
    case Some(h) =>
      if h.end < |t| {
        LastOfConcat(h.text, t[h.end..]);
      } else {
        assert t[h.end..] == [];
        assert h.text + t[h.end..] == h.text;
      }
    case None =>
      if p + 1 < |t| {
        SubFirstLast(m, t, p + 1);
        LastOfConcat([t[p]], SubFirst(m, t, p + 1));
      }
  }

  lemma LastOfConcat(a: string, b: string)
    requires b != []
    ensures a + b != [] && (a + b)[|a + b| - 1] == b[|b| - 1]
  {
  }

  lemma SubFirstHead(m: Matcher, t: string, p: nat)
    requires p < |t|
    ensures SubFirst(m, t, p) != [] &&
      SubFirst(m, t, p)[0] == (match Matched(m, t, p) case Some(h) => h.text[0] case None => t[p])
  {
  }

  /** The characters of s that are not whitespace, in order. */
  function Visible(s: string): string
  {
    if s == [] then [] else (if IsPySpace(s[0]) then [] else [s[0]]) + Visible(s[1..])
  }

  lemma {:induction false} VisibleConcat(a: string, b: string)
    ensures Visible(a + b) == Visible(a) + Visible(b)
    decreases |a|
  {
    if a == [] {
      assert a + b == b;
    } else {
      assert (a + b)[0] == a[0];
      assert (a + b)[1..] == a[1..] + b;
      VisibleConcat(a[1..], b);
    }
  }

  lemma {:induction false} VisibleOfSpaces(s: string)
    requires forall k :: 0 <= k < |s| ==> IsPySpace(s[k])
    ensures Visible(s) == []
    decreases |s|
  {
    if s != [] { VisibleOfSpaces(s[1..]); }
  }

  /** The match at q, if any, changes only whitespace. */
  predicate KeepsVisible(m: Matcher, t: string, q: nat)
    requires q < |t|
  {
    match Matched(m, t, q)
    case None => true
    case Some(h) => Visible(h.text) == Visible(t[q..h.end])
  }

  /** A substitution whose every match changes only whitespace changes only
      whitespace. */
  lemma {:induction false} SubAllVisible(m: Matcher, t: string, p: nat)
    requires p <= |t|
    requires forall q :: p <= q < |t| ==> KeepsVisible(m, t, q)
    ensures Visible(SubAll(m, t, p)) == Visible(t[p..])
    decreases |t| - p
  {
    if p < |t| {
      var e := Emit(m, t, p);
      assert KeepsVisible(m, t, p);
      assert Visible(e.text) == Visible(t[p..e.end]);
      SubAllVisible(m, t, e.end);
      VisibleConcat(e.text, SubAll(m, t, e.end));
      SliceSplit(t, p, e.end);
      VisibleConcat(t[p..e.end], t[e.end..]);
    }
  }

  /** A substitution that never matches is the identity. */
  lemma NoMatchIdentity(m: Matcher, t: string)
    requires forall q :: 0 <= q < |t| ==> Matched(m, t, q).None?
    ensures SubAll(m, t, 0) == t
  {
    assert forall q :: 0 <= q < |t| ==> KeepsText(m, t, q);
    SubAllIdentity(m, t, 0);
  }

  // ---------------------------------------------------------------------
  // Per-rule facts used by the punctuators.

  /** \bi\b -> I changes exactly the standalone lower-case i's, one for one. */
  lemma {:induction false} StandaloneIPointwise(t: string, p: nat)
    requires p <= |t|
    ensures var r := SubAll(MatchStandaloneI, t, p);
      |r| == |t| - p &&
      forall k :: p <= k < |t| ==> r[k - p] == (if IsStandaloneI(t, k) then 'I' else t[k])
    decreases |t| - p
  {
    if p < |t| {
      StandaloneIPointwise(t, p + 1);
      var r := SubAll(MatchStandaloneI, t, p);
      assert r == Emit(MatchStandaloneI, t, p).text + SubAll(MatchStandaloneI, t, p + 1);
    }
  }

  /** A match of \s+([,.!?]) replaces whitespace followed by punctuation
      with that punctuation alone. */
  lemma SpaceBeforePunctMatch(t: string, p: nat)
    requires p < |t|
    ensures Matched(MatchSpaceBeforePunct, t, p).Some? <==>
      IsPySpace(t[p]) && SpaceEnd(t, p) < |t| && IsPunct(t[SpaceEnd(t, p)])
    ensures Matched(MatchSpaceBeforePunct, t, p).Some? ==>
      Matched(MatchSpaceBeforePunct, t, p).value == Hit(SpaceEnd(t, p) + 1, [t[SpaceEnd(t, p)]])
  {
  }

  /** The leftmost position at or after p where the pattern matches, or -1. */
  function FirstMatch(m: Matcher, t: string, p: nat): (q: int)
    requires p <= |t|
    ensures q == -1 || (p <= q < |t| && Matched(m, t, q).Some?)
    ensures forall q' :: p <= q' < |t| && (q == -1 || q' < q) ==> Matched(m, t, q').None?
    decreases |t| - p
  {
    if p == |t| then -1 else if Matched(m, t, p).Some? then p else FirstMatch(m, t, p + 1)
  }

  /** Only the leftmost match is replaced: the text before it is copied,
      then the replacement, then the rest of the text unchanged; with no
      match the text is returned as it was. */
  lemma {:induction false} SubFirstSpec(m: Matcher, t: string, p: nat)
    requires p <= |t|
    ensures var q := FirstMatch(m, t, p);
      SubFirst(m, t, p) ==
        if q == -1 then t[p..]
        else t[p..q] + Matched(m, t, q).value.text + t[Matched(m, t, q).value.end..]
    decreases |t| - p
  {
    if p < |t| && Matched(m, t, p).None? {
      SubFirstSpec(m, t, p + 1);
      var q := FirstMatch(m, t, p + 1);
      ConsSlice(t, p, if q == -1 then |t| else q);
    }
  }

  lemma ConsSlice(t: string, p: nat, q: nat)
    requires p < q <= |t|
    ensures t[p..q] == [t[p]] + t[p + 1..q] && t[p..] == [t[p]] + t[p + 1..]
  {
  }

  // ---------------------------------------------------------------------
  // Adjacent pairs of characters that a rewrite rules out.

  datatype PairKind = SpaceThenPunct | PunctThenLetter | TwoBlanks

  predicate BadPair(kind: PairKind, a: char, b: char)
  {
    match kind
    case SpaceThenPunct => IsPySpace(a) && IsPunct(b)
    case PunctThenLetter => IsPunct(a) && IsAsciiLetter(b)
    case TwoBlanks => a == ' ' && b == ' '
  }

  /** No two neighbouring characters of s form a bad pair of this kind. */
  predicate NoPair(s: string, kind: PairKind)
  {
    forall k :: 0 <= k < |s| - 1 ==> !BadPair(kind, s[k], s[k + 1])
  }

  lemma NoPairConcat(a: string, b: string, kind: PairKind)
    requires NoPair(a, kind) && NoPair(b, kind)
    requires a != [] && b != [] ==> !BadPair(kind, a[|a| - 1], b[0])
    ensures NoPair(a + b, kind)
  {
    var s := a + b;
    forall k | 0 <= k < |s| - 1 ensures !BadPair(kind, s[k], s[k + 1]) {
      if k + 1 < |a| {
        assert s[k] == a[k] && s[k + 1] == a[k + 1];
      } else if k + 1 == |a| {
        assert s[k] == a[|a| - 1] && s[k + 1] == b[0];
      } else {
        assert s[k] == b[k - |a|] && s[k + 1] == b[k - |a| + 1];
      }
    }
  }

  // ---------------------------------------------------------------------
  // \s+([,.!?]) -> \1 and ([,.!?])([A-Za-z]) -> \1 \2

  lemma SpaceEndStep(t: string, p: nat)
    requires p < |t| && IsPySpace(t[p])
    ensures SpaceEnd(t, p) == SpaceEnd(t, p + 1)
  {
  }

  /** After \s+([,.!?]) -> \1, no whitespace stands before punctuation. */
  lemma {:induction false} SpaceBeforePunctRemoved(t: string, p: nat)
    requires p <= |t|
    ensures NoPair(SubAll(MatchSpaceBeforePunct, t, p), SpaceThenPunct)
    decreases |t| - p
  {
    if p < |t| {
      var e := Emit(MatchSpaceBeforePunct, t, p);
      var rest := SubAll(MatchSpaceBeforePunct, t, e.end);
      SpaceBeforePunctRemoved(t, e.end);
      if e.end < |t| && IsPySpace(e.text[|e.text| - 1]) {
        // Only a copied blank ends in whitespace; the next emission is
        // then the next character, which cannot be punctuation.
        assert Matched(MatchSpaceBeforePunct, t, p).None? && e.end == p + 1;
        if IsPySpace(t[p]) { SpaceEndStep(t, p); }
        assert Matched(MatchSpaceBeforePunct, t, p + 1).None?;
        SubAllHead(MatchSpaceBeforePunct, t, p + 1);
        assert rest[0] == t[p + 1] && !IsPunct(t[p + 1]);
      }
      NoPairConcat(e.text, rest, SpaceThenPunct);
    }
  }

  /** After ([,.!?])([A-Za-z]) -> \1 \2, no punctuation is directly
      followed by a letter, and no whitespace that did not stand before
      punctuation does so now. */
  lemma {:induction false} PunctLetterSeparated(t: string, p: nat)
    requires p <= |t|
    requires NoPair(t, SpaceThenPunct)
    ensures NoPair(SubAll(MatchPunctLetter, t, p), PunctThenLetter)
    ensures NoPair(SubAll(MatchPunctLetter, t, p), SpaceThenPunct)
    decreases |t| - p
  {
    if p < |t| {
      var e := Emit(MatchPunctLetter, t, p);
      var rest := SubAll(MatchPunctLetter, t, e.end);
      PunctLetterSeparated(t, e.end);
      if e.end < |t| {
        SubAllHead(MatchPunctLetter, t, e.end);
        assert rest[0] == t[e.end];
        if Matched(MatchPunctLetter, t, p).None? {
          assert e.text == [t[p]] && e.end == p + 1;
          assert !BadPair(SpaceThenPunct, t[p], t[p + 1]);
        }
      }
      NoPairConcat(e.text, rest, PunctThenLetter);
      NoPairConcat(e.text, rest, SpaceThenPunct);
    }
  }

  /** Both rewrites keep the last character of the text. */
  lemma PunctRulesKeepLast(t: string)
    requires t != []
    ensures forall q :: 0 <= q < |t| ==> KeepsLast(MatchSpaceBeforePunct, t, q) && KeepsLast(MatchPunctLetter, t, q)
  {
  }

  /** Both rewrites change only whitespace: the first drops it, the second
      inserts one blank. */
  lemma PunctRulesKeepVisible(t: string)
    ensures forall q :: 0 <= q < |t| ==> KeepsVisible(MatchSpaceBeforePunct, t, q)
    ensures forall q :: 0 <= q < |t| ==> KeepsVisible(MatchPunctLetter, t, q)
  {
    forall q | 0 <= q < |t| ensures KeepsVisible(MatchSpaceBeforePunct, t, q) {
      if Matched(MatchSpaceBeforePunct, t, q).Some? {
        var s1 := SpaceEnd(t, q);
        assert t[q..s1 + 1] == t[q..s1] + [t[s1]];
        VisibleConcat(t[q..s1], [t[s1]]);
        VisibleOfSpaces(t[q..s1]);
      }
    }
    forall q | 0 <= q < |t| ensures KeepsVisible(MatchPunctLetter, t, q) {
      if Matched(MatchPunctLetter, t, q).Some? {
        assert t[q..q + 2] == [t[q]] + [t[q + 1]];
        assert [t[q], ' ', t[q + 1]] == [t[q]] + ([' '] + [t[q + 1]]);
        VisibleConcat([t[q]], [' '] + [t[q + 1]]);
        VisibleConcat([' '], [t[q + 1]]);
        VisibleConcat([t[q]], [t[q + 1]]);
      }
    }
  }

  /** Text with no whitespace before punctuation has no \s+([,.!?]) match. */
  lemma SpaceBeforePunctAbsent(t: string)
    requires NoPair(t, SpaceThenPunct)
    ensures forall q :: 0 <= q < |t| ==> Matched(MatchSpaceBeforePunct, t, q).None?
  {
    forall q | 0 <= q < |t| ensures Matched(MatchSpaceBeforePunct, t, q).None? {
      var s1 := SpaceEnd(t, q);
      if s1 > q && s1 < |t| {
        assert !BadPair(SpaceThenPunct, t[s1 - 1], t[s1]);
      }
    }
  }

  /** Text with no punctuation directly before a letter has no
      ([,.!?])([A-Za-z]) match. */
  lemma PunctLetterAbsent(t: string)
    requires NoPair(t, PunctThenLetter)
    ensures forall q :: 0 <= q < |t| ==> Matched(MatchPunctLetter, t, q).None?
  {
    forall q | 0 <= q < |t| ensures Matched(MatchPunctLetter, t, q).None? {
      if q + 1 < |t| {
        assert !BadPair(PunctThenLetter, t[q], t[q + 1]);
      }
    }
  }

  // ---------------------------------------------------------------------
  // (\w{4,})\s+(and|but|so|because)\s+I\s+ and (\w+)\s+and\s+(\w+)

  /** The four formatting conjunctions are not prefixes of one another,
      so at most one of them is spelled at a position. */
  lemma FormattingConjunctionsDistinct(t: string, p: nat, j: nat, j': nat)
    requires j < 4 && j' < 4
    requires SpellsAt(t, p, FormattingConjunctions[j], true) && SpellsAt(t, p, FormattingConjunctions[j'], true)
    ensures j == j'
  {
    var ws := FormattingConjunctions;
    assert Lower(t[p]) == ws[j][0] && Lower(t[p]) == ws[j'][0];
    if ws[j][0] == 'b' && ws[j'][0] == 'b' {
      assert Lower(t[p + 1]) == ws[j][1] && Lower(t[p + 1]) == ws[j'][1];
    }
  }

  /** A run of at least four word characters (p..w), whitespace (w..c),
      and/but/so/because in any ASCII case, whitespace, I or i (at q) and
      whitespace (to e) is rewritten to the word, ", ", the conjunction as
      written and " I ". */
  lemma ConjIRewrites(t: string, p: nat, w: nat, c: nat, j: nat, q: nat, e: nat)
    requires j < 4 && p + 4 <= w < c && c + |FormattingConjunctions[j]| < q && q + 1 < e <= |t|
    requires forall k :: p <= k < w ==> IsWordChar(t[k])
    requires forall k :: w <= k < c ==> IsPySpace(t[k])
    requires SpellsAt(t, c, FormattingConjunctions[j], true)
    requires forall k :: c + |FormattingConjunctions[j]| <= k < q ==> IsPySpace(t[k])
    requires t[q] == 'I' || t[q] == 'i'
    requires forall k :: q + 1 <= k < e ==> IsPySpace(t[k])
    requires e == |t| || !IsPySpace(t[e])
    ensures Matched(MatchConjI, t, p) ==
      Some(Hit(e, t[p..w] + ", " + t[c..c + |FormattingConjunctions[j]|] + " I "))
  {
    var ws := FormattingConjunctions;
    var cw := |ws[j]|;
    assert WordEnd(t, p) == w by { WordEndAt(t, p, w); }
    assert SpaceEnd(t, w) == c by {
      assert !IsPySpace(t[c]) by { assert Lower(t[c]) == ws[j][0]; }
      SpaceEndAt(t, w, c);
    }
    assert WordAt(t, c, ws, true) == Some(j) by { ConjIWordAt(t, c, j); }
    assert SpaceEnd(t, c + cw) == q by { SpaceEndAt(t, c + cw, q); }
    assert SpaceEnd(t, q + 1) == e by { SpaceEndAt(t, q + 1, e); }
    ConjIFromRuns(t, p, w, c, j, q, e);
  }

  /** The alternation finds the conjunction that is spelled. */
  lemma ConjIWordAt(t: string, c: nat, j: nat)
    requires j < 4 && SpellsAt(t, c, FormattingConjunctions[j], true)
    ensures WordAt(t, c, FormattingConjunctions, true) == Some(j)
  {
    var found := WordAt(t, c, FormattingConjunctions, true);
    assert found.Some?;
    FormattingConjunctionsDistinct(t, c, j, found.value);
  }

  /** MatchConjI in terms of the ends of its runs. */
  lemma ConjIFromRuns(t: string, p: nat, w: nat, c: nat, j: nat, q: nat, e: nat)
    requires p < w && w - p >= 4 && w < c && j < 4 && c + |FormattingConjunctions[j]| < q < e <= |t|
    requires WordEnd(t, p) == w && SpaceEnd(t, w) == c
    requires WordAt(t, c, FormattingConjunctions, true) == Some(j)
    requires SpaceEnd(t, c + |FormattingConjunctions[j]|) == q && (t[q] == 'I' || t[q] == 'i')
    requires SpaceEnd(t, q + 1) == e && q + 1 < e
    ensures Matched(MatchConjI, t, p) ==
      Some(Hit(e, t[p..w] + ", " + t[c..c + |FormattingConjunctions[j]|] + " I "))
  {
    var d := c + |FormattingConjunctions[j]|;
    ConjIHead(t, p, w, c, j);
    ConjITail(t, p, w, c, d, q, e);
    MatchedIs(MatchConjI, t, p);
  }

  lemma ConjIHead(t: string, p: nat, w: nat, c: nat, j: nat)
    requires p < w && w - p >= 4 && w < c <= |t| && j < 4
    requires WordEnd(t, p) == w && SpaceEnd(t, w) == c
    requires WordAt(t, c, FormattingConjunctions, true) == Some(j)
    ensures c + |FormattingConjunctions[j]| <= |t|
    ensures MatchConjI(t, p) == MatchConjIAfter(t, p, w, c, c + |FormattingConjunctions[j]|)
  {
  }

  lemma ConjITail(t: string, p: nat, w: nat, c: nat, d: nat, q: nat, e: nat)
    requires p < w <= c <= d < q && q + 1 < e <= |t|
    requires SpaceEnd(t, d) == q && (t[q] == 'I' || t[q] == 'i') && SpaceEnd(t, q + 1) == e
    ensures MatchConjIAfter(t, p, w, c, d) == Some(Hit(e, t[p..w] + ", " + t[c..d] + " I "))
  {
  }

  /** Matched is the matcher itself when it reports a well-formed match. */
  lemma MatchedIs(m: Matcher, t: string, p: nat)
    requires p < |t| && m(t, p).Some? && ValidHit(t, p, m(t, p).value)
    ensures Matched(m, t, p) == m(t, p)
  {
  }

  /** A ConjI match ends in whitespace that runs to the end of the match. */
  lemma ConjIEndsInSpace(t: string, p: nat)
    requires p < |t| && Matched(MatchConjI, t, p).Some?
    ensures var h := Matched(MatchConjI, t, p).value;
      IsPySpace(t[h.end - 1]) && h.text[0] == t[p]
  {
  }

  /** A run of word characters (p..w), whitespace (w..c), "and",
      whitespace (to v) and a run of word characters (v..e) is rewritten to
      the first word, ", and " and the second word. */
  lemma ListAndRewrites(t: string, p: nat, w: nat, c: nat, v: nat, e: nat)
    requires p < w < c && c + 3 < v < e <= |t|
    requires forall k :: p <= k < w ==> IsWordChar(t[k])
    requires forall k :: w <= k < c ==> IsPySpace(t[k])
    requires t[c..c + 3] == "and"
    requires forall k :: c + 3 <= k < v ==> IsPySpace(t[k])
    requires forall k :: v <= k < e ==> IsWordChar(t[k])
    requires e == |t| || !IsWordChar(t[e])
    ensures Matched(MatchListAnd, t, p) == Some(Hit(e, t[p..w] + ", and " + t[v..e]))
  {
    assert WordEnd(t, p) == w by { WordEndAt(t, p, w); }
    assert SpaceEnd(t, w) == c by {
      assert t[c] == t[c..c + 3][0] == 'a';
      SpaceEndAt(t, w, c);
    }
    assert SpaceEnd(t, c + 3) == v by {
      assert IsWordChar(t[v]);
      SpaceEndAt(t, c + 3, v);
    }
    assert WordEnd(t, v) == e by { WordEndAt(t, v, e); }
    ListAndFromRuns(t, p, w, c, v, e);
  }

  /** MatchListAnd in terms of the ends of its runs. */
  lemma ListAndFromRuns(t: string, p: nat, w: nat, c: nat, v: nat, e: nat)
    requires p < w < c && c + 3 < v < e <= |t|
    requires WordEnd(t, p) == w && SpaceEnd(t, w) == c && t[c..c + 3] == "and"
    requires SpaceEnd(t, c + 3) == v && WordEnd(t, v) == e
    ensures Matched(MatchListAnd, t, p) == Some(Hit(e, t[p..w] + ", and " + t[v..e]))
  {
  }

  /** A ListAnd match ends in a word character and starts its replacement
      with the matched text's first character. */
  lemma ListAndEndsInWord(t: string, p: nat)
    requires p < |t| && Matched(MatchListAnd, t, p).Some?
    ensures var h := Matched(MatchListAnd, t, p).value;
      IsWordChar(t[h.end - 1]) && h.text[0] == t[p]
  {
  }

  // ---------------------------------------------------------------------
  // \s+(and|but|so|because|while)\s+ -> , \1

  /** The five rule conjunctions are not prefixes of one another. */
  lemma RuleConjunctionsDistinct(t: string, p: nat, j: nat, j': nat)
    requires j < 5 && j' < 5
    requires SpellsAt(t, p, RuleConjunctions[j], false) && SpellsAt(t, p, RuleConjunctions[j'], false)
    ensures j == j'
  {
    var ws := RuleConjunctions;
    assert t[p] == ws[j][0] && t[p] == ws[j'][0];
    if ws[j][0] == 'b' && ws[j'][0] == 'b' {
      assert t[p + 1] == ws[j][1] && t[p + 1] == ws[j'][1];
    }
  }

  /** Whitespace, one of and/but/so/because/while (case-sensitive) and
      whitespace become ", ", the conjunction and one blank. */
  lemma ConjCommaRewrites(t: string, p: nat, a: nat, j: nat, b: nat)
    requires j < 5 && a >= 1 && b >= 1
    requires var c := p + a; var e := c + |RuleConjunctions[j]| + b;
      e <= |t| &&
      (forall k :: p <= k < c ==> IsPySpace(t[k])) &&
      SpellsAt(t, c, RuleConjunctions[j], false) &&
      (forall k :: c + |RuleConjunctions[j]| <= k < e ==> IsPySpace(t[k])) &&
      (e == |t| || !IsPySpace(t[e]))
    ensures Matched(MatchConjComma, t, p) ==
      Some(Hit(p + a + |RuleConjunctions[j]| + b, ", " + RuleConjunctions[j] + " "))
  {
    var ws := RuleConjunctions;
    var c := p + a;
    assert !IsPySpace(t[c]) by { assert t[c] == ws[j][0]; }
    SpaceEndAt(t, p, c);
    var found := WordAt(t, c, ws, false);
    assert found.Some?;
    RuleConjunctionsDistinct(t, c, j, found.value);
    SpaceEndAt(t, c + |ws[j]|, c + |ws[j]| + b);
  }

  /** What a ConjComma match looks like: it starts on whitespace, consumes
      all the whitespace after the conjunction, and its replacement has one
      blank on each side of the conjunction and no other whitespace. */
  lemma ConjCommaMatchShape(t: string, p: nat)
    requires p < |t| && Matched(MatchConjComma, t, p).Some?
    ensures var h := Matched(MatchConjComma, t, p).value;
      IsPySpace(t[p]) && IsPySpace(t[h.end - 1]) && (h.end == |t| || !IsPySpace(t[h.end])) &&
      |h.text| >= 4 && h.text[0] == ',' && h.text[1] == ' ' && h.text[|h.text| - 1] == ' ' &&
      forall k :: 2 <= k < |h.text| - 1 ==> IsAsciiLetter(h.text[k])
  {
    var s1 := SpaceEnd(t, p);
    var j := WordAt(t, s1, RuleConjunctions, false).value;
    var c := RuleConjunctions[j];
    assert c in ["and", "but", "so", "because", "while"];
    assert forall k :: 0 <= k < |c| ==> IsAsciiLetter(c[k]);
  }
}
