/** punctuate_rules (src/nlp/punctuate_rules.py): collapse whitespace to
    single blanks, upper-case standalone i and the first character, put a
    comma after an opening word and before a conjunction, close with a
    period, and rewrite ". I " after a period. */
module PunctuateRules {
  import opened Chars
  import opened Regex
  import opened Punctuate

  /** A maximal run of non-whitespace characters, as str.split() yields. */
  predicate IsWord(w: string)
  {
    w != [] && forall k :: 0 <= k < |w| ==> !IsPySpace(w[k])
  }

  /** End of the run of non-whitespace characters starting at p. */
  function TokenEnd(s: string, p: nat): (q: nat)
    requires p <= |s|
    ensures p <= q <= |s|
    ensures forall k :: p <= k < q ==> !IsPySpace(s[k])
    ensures q == |s| || IsPySpace(s[q])
    decreases |s| - p
  {
    if p < |s| && !IsPySpace(s[p]) then TokenEnd(s, p + 1) else p
  }

  /** str.split() with no separator: the runs of non-whitespace, in order. */
  function Words(s: string): (ws: seq<string>)
    ensures forall i :: 0 <= i < |ws| ==> IsWord(ws[i])
    ensures ws == [] <==> forall k :: 0 <= k < |s| ==> IsPySpace(s[k])
    ensures ws != [] ==> SpaceEnd(s, 0) < |s| && IsWord(ws[0]) && ws[0][0] == s[SpaceEnd(s, 0)]
    decreases |s|
  {
    var a := SpaceEnd(s, 0);
    if a == |s| then []
    else
      var b := TokenEnd(s, a);
      [s[a..b]] + Words(s[b..])
  }

  /** " ".join(ws) */
  function Join(ws: seq<string>): string
  {
    if ws == [] then [] else if |ws| == 1 then ws[0] else ws[0] + " " + Join(ws[1..])
  }

  /** " ".join(text.strip().split()) */
  function Normalize(text: string): string
  {
    Join(Words(Strip(Python, text)))
  }

  /** The only whitespace character in s is the blank. */
  predicate BlanksOnly(s: string)
  {
    forall k :: 0 <= k < |s| && IsPySpace(s[k]) ==> s[k] == ' '
  }

  /** Words separated by exactly one blank: what Normalize produces and
      every later step of punctuate_rules keeps. */
  predicate SingleSpaced(t: string)
  {
    t != [] && !IsPySpace(t[0]) && !IsPySpace(t[|t| - 1]) && BlanksOnly(t) && NoPair(t, TwoBlanks)
  }

  lemma VisibleOfWord(w: string)
    requires forall k :: 0 <= k < |w| ==> !IsPySpace(w[k])
    ensures Visible(w) == w
    decreases |w|
  {
    if w != [] {
      VisibleOfWord(w[1..]);
      assert w == [w[0]] + w[1..];
    }
  }

  lemma GlueSingleSpaced(a: string, b: string)
    requires SingleSpaced(a) && SingleSpaced(b)
    ensures SingleSpaced(a + " " + b) && (a + " " + b)[0] == a[0]
  {
    NoPairConcat(a, " ", TwoBlanks);
    NoPairConcat(a + " ", b, TwoBlanks);
  }

  /** Joining words with blanks gives single-spaced text that starts with
      the first word. */
  lemma {:induction false} JoinWords(ws: seq<string>)
    requires ws != [] && forall i :: 0 <= i < |ws| ==> IsWord(ws[i])
    ensures SingleSpaced(Join(ws)) && Join(ws)[0] == ws[0][0]
    decreases |ws|
  {
    if |ws| > 1 {
      JoinWords(ws[1..]);
      GlueSingleSpaced(ws[0], Join(ws[1..]));
    }
  }

  lemma VisibleWordThen(w: string, y: string)
    requires forall k :: 0 <= k < |w| ==> !IsPySpace(w[k])
    ensures Visible(w + y) == w + Visible(y)
  {
    VisibleConcat(w, y);
    VisibleOfWord(w);
  }

  lemma JoinConsVisible(w: string, rest: seq<string>)
    requires IsWord(w)
    ensures Visible(Join([w] + rest)) == w + Visible(Join(rest))
  {
    if rest == [] {
      assert Join([w] + rest) == w;
      VisibleOfWord(w);
    } else {
      assert ([w] + rest)[1..] == rest;
      assert Join([w] + rest) == w + (" " + Join(rest));
      VisibleWordThen(w, " " + Join(rest));
      assert (" " + Join(rest))[1..] == Join(rest);
    }
  }

  lemma VisibleSpacesWordRest(x: string, w: string, y: string)
    requires forall k :: 0 <= k < |x| ==> IsPySpace(x[k])
    requires forall k :: 0 <= k < |w| ==> !IsPySpace(w[k])
    ensures Visible(x + w + y) == w + Visible(y)
  {
    assert x + w + y == x + (w + y);
    VisibleConcat(x, w + y);
    VisibleOfSpaces(x);
    VisibleWordThen(w, y);
  }

  /** The visible characters of s are those of its first word and of the
      text after it. */
  lemma VisibleFirstWord(s: string, a: nat, b: nat)
    requires a <= b <= |s|
    requires forall k :: 0 <= k < a ==> IsPySpace(s[k])
    requires forall k :: a <= k < b ==> !IsPySpace(s[k])
    ensures Visible(s) == s[a..b] + Visible(s[b..])
  {
    SplitThree(s, a, b);
    SpacesSlice(s, 0, a);
    WordSlice(s, a, b);
    VisibleSpacesWordRest(s[..a], s[a..b], s[b..]);
  }

  lemma SpacesSlice(s: string, a: nat, b: nat)
    requires a <= b <= |s| && forall k :: a <= k < b ==> IsPySpace(s[k])
    ensures forall k :: 0 <= k < |s[a..b]| ==> IsPySpace(s[a..b][k])
    ensures a == 0 ==> s[..b] == s[a..b]
  {
    forall k | 0 <= k < |s[a..b]| ensures IsPySpace(s[a..b][k]) {
      assert s[a..b][k] == s[a + k];
    }
  }

  lemma WordSlice(s: string, a: nat, b: nat)
    requires a <= b <= |s| && forall k :: a <= k < b ==> !IsPySpace(s[k])
    ensures forall k :: 0 <= k < |s[a..b]| ==> !IsPySpace(s[a..b][k])
  {
    forall k | 0 <= k < |s[a..b]| ensures !IsPySpace(s[a..b][k]) {
      assert s[a..b][k] == s[a + k];
    }
  }

  /** Splitting and rejoining changes only whitespace. */
  lemma {:induction false} SplitJoinVisible(s: string)
    ensures Visible(Join(Words(s))) == Visible(s)
    decreases |s|
  {
    var a := SpaceEnd(s, 0);
    if a == |s| {
      VisibleOfSpaces(s);
    } else {
      var b := TokenEnd(s, a);
      assert Words(s) == [s[a..b]] + Words(s[b..]);
      SplitJoinVisible(s[b..]);
      VisibleFirstWord(s, a, b);
      JoinConsVisible(s[a..b], Words(s[b..]));
    }
  }

  lemma VisibleDropPrefix(s: string, i: nat)
    requires i <= |s| && forall k :: 0 <= k < i ==> IsPySpace(s[k])
    ensures Visible(s[i..]) == Visible(s)
  {
    SplitThree(s, 0, i);
    VisibleConcat(s[..i], s[i..]);
    VisibleOfSpaces(s[..i]);
  }

  lemma VisibleTrailingSpaces(w: string, z: string)
    requires forall k :: 0 <= k < |z| ==> IsPySpace(z[k])
    ensures Visible(w + z) == Visible(w)
  {
    VisibleConcat(w, z);
    VisibleOfSpaces(z);
  }

  lemma VisibleDropSuffix(s: string, j: nat)
    requires j <= |s| && forall k :: j <= k < |s| ==> IsPySpace(s[k])
    ensures Visible(s[..j]) == Visible(s)
  {
    SplitTwo(s, j);
    VisibleTrailingSpaces(s[..j], s[j..]);
  }

  /** Stripping removes only whitespace. */
  lemma StripVisible(s: string)
    ensures Visible(Strip(Python, s)) == Visible(s)
  {
    var i := SkipSpace(Python, s, 0);
    var j := BackSpace(Python, s, i, |s|);
    VisibleDropPrefix(s, i);
    VisibleDropSuffix(s[i..], j - i);
    assert s[i..][..j - i] == s[i..j];
  }

  /** Normalize is empty exactly for blank text; otherwise it is single
      spaced, starts with the first visible character of the text and
      keeps every visible character in order. */
  lemma NormalizeSpec(text: string)
    ensures Normalize(text) == [] <==> forall k :: 0 <= k < |text| ==> IsPySpace(text[k])
    ensures Normalize(text) != [] ==>
      Strip(Python, text) != [] && SingleSpaced(Normalize(text)) && Normalize(text)[0] == Strip(Python, text)[0]
    ensures Visible(Normalize(text)) == Visible(text)
  {
    var s := Strip(Python, text);
    StripEmptyIffAllSpace(Python, text);
    StripSpec(Python, text);
    var ws := Words(s);
    if ws != [] {
      JoinWords(ws);
      assert SpaceEnd(s, 0) == 0;
    }
    SplitJoinVisible(s);
    StripVisible(text);
  }

  // ---------------------------------------------------------------------
  // Each step keeps the text single spaced.

  /** Replacing visible characters by visible characters keeps single
      spacing. */
  lemma SameSpacing(t: string, u: string)
    requires SingleSpaced(t) && |u| == |t|
    requires forall k :: 0 <= k < |t| ==> u[k] == t[k] || (!IsPySpace(u[k]) && !IsPySpace(t[k]))
    ensures SingleSpaced(u)
  {
    forall k | 0 <= k < |u| - 1 ensures !BadPair(TwoBlanks, u[k], u[k + 1]) {
      assert !BadPair(TwoBlanks, t[k], t[k + 1]);
    }
  }

  /** \bi\b -> I keeps single spacing and the upper-cased first character. */
  lemma StandaloneISpacing(t: string)
    requires SingleSpaced(t)
    ensures var u := SubAll(MatchStandaloneI, t, 0);
      SingleSpaced(u) && Upper(u[0]) == Upper(t[0])
  {
    var u := SubAll(MatchStandaloneI, t, 0);
    StandaloneIPointwise(t, 0);
    assert forall k :: 0 <= k < |t| ==> u[k] == t[k] || (!IsPySpace(u[k]) && !IsPySpace(t[k])) by {
      forall k | 0 <= k < |t| ensures u[k] == t[k] || (!IsPySpace(u[k]) && !IsPySpace(t[k])) {
        assert u[k - 0] == (if IsStandaloneI(t, k) then 'I' else t[k]);
      }
    }
    SameSpacing(t, u);
  }

  lemma CapitalizeSpacing(t: string)
    requires SingleSpaced(t)
    ensures SingleSpaced(Capitalize(t)) && Capitalize(t)[0] == Upper(t[0])
  {
    var u := Capitalize(t);
    UpperNotSpace(t[0]);
    assert forall k :: 1 <= k < |t| ==> u[k] == t[k];
    forall k | 0 <= k < |u| - 1 ensures !BadPair(TwoBlanks, u[k], u[k + 1]) {
      assert k > 0 ==> !BadPair(TwoBlanks, t[k], t[k + 1]);
    }
  }

  lemma NoPairSlice(t: string, i: nat, j: nat, kind: PairKind)
    requires i <= j <= |t| && NoPair(t, kind)
    ensures NoPair(t[i..j], kind)
  {
    var s := t[i..j];
    forall k | 0 <= k < |s| - 1 ensures !BadPair(kind, s[k], s[k + 1]) {
      assert s[k] == t[i + k] && s[k + 1] == t[i + k + 1];
    }
  }

  /** Turning "w rest" into "w, rest" keeps single spacing and the first
      character. */
  lemma OpenerCommaSpacing(t: string, w: string)
    requires SingleSpaced(t) && w != [] && StartsWith(t, w + " ")
    ensures var u := w + ", " + t[|w| + 1..];
      SingleSpaced(u) && u[0] == t[0]
  {
    var k := |w|;
    var u := w + ", " + t[k + 1..];
    assert t[k] == ' ' && t[..k] == w;
    assert u == t[..k] + [','] + t[k..];
    NoPairSlice(t, 0, k, TwoBlanks);
    NoPairSlice(t, k, |t|, TwoBlanks);
    NoPairConcat(t[..k], [','], TwoBlanks);
    NoPairConcat(t[..k] + [','], t[k..], TwoBlanks);
  }

  /** A match of \s+(and|but|so|because|while)\s+ cannot reach the end of
      text that ends in a visible character. */
  lemma ConjCommaKeepsLast(t: string)
    requires t != [] && !IsPySpace(t[|t| - 1])
    ensures forall q :: 0 <= q < |t| ==> KeepsLast(MatchConjComma, t, q)
  {
    forall q | 0 <= q < |t| ensures KeepsLast(MatchConjComma, t, q) {
      if Matched(MatchConjComma, t, q).Some? {
        ConjCommaMatchShape(t, q);
      }
    }
  }

  /** \s+(and|but|so|because|while)\s+ -> , \1 applied from p keeps the
      text single spaced: blanks are the only whitespace, no two blanks
      meet, and the output starts with t[p] when that is visible. */
  lemma {:induction false} ConjCommaSpacingFrom(t: string, p: nat)
    requires SingleSpaced(t) && p < |t|
    ensures var u := SubAll(MatchConjComma, t, p);
      u != [] && BlanksOnly(u) && NoPair(u, TwoBlanks) && (!IsPySpace(t[p]) ==> u[0] == t[p])
    decreases |t| - p
  {
    var e := Emit(MatchConjComma, t, p);
    ConjCommaEmit(t, p);
    if e.end < |t| {
      var rest := SubAll(MatchConjComma, t, e.end);
      ConjCommaSpacingFrom(t, e.end);
      BlanksOnlyConcat(e.text, rest);
      NoPairConcat(e.text, rest, TwoBlanks);
    }
  }

  /** One step of the ConjComma scan emits single-spaced text; when it ends
      in a blank, a match or a copied blank, the next character is visible. */
  lemma ConjCommaEmit(t: string, p: nat)
    requires SingleSpaced(t) && p < |t|
    ensures var e := Emit(MatchConjComma, t, p);
      BlanksOnly(e.text) && NoPair(e.text, TwoBlanks) &&
      (!IsPySpace(t[p]) ==> e.text[0] == t[p]) &&
      (e.end < |t| && e.text[|e.text| - 1] == ' ' ==> !IsPySpace(t[e.end]))
  {
    if Matched(MatchConjComma, t, p).Some? {
      ConjCommaMatchShape(t, p);
    } else if p + 1 < |t| {
      assert !BadPair(TwoBlanks, t[p], t[p + 1]);
    }
  }

  lemma BlanksOnlyConcat(a: string, b: string)
    requires BlanksOnly(a) && BlanksOnly(b)
    ensures BlanksOnly(a + b)
  {
    forall k | 0 <= k < |a + b| && IsPySpace((a + b)[k]) ensures (a + b)[k] == ' ' {
      if k >= |a| {
        assert (a + b)[k] == b[k - |a|];
      }
    }
  }

  lemma ConjCommaSpacing(t: string)
    requires SingleSpaced(t)
    ensures var u := SubAll(MatchConjComma, t, 0); SingleSpaced(u) && u[0] == t[0]
  {
    var u := SubAll(MatchConjComma, t, 0);
    ConjCommaSpacingFrom(t, 0);
    ConjCommaKeepsLast(t);
    SubAllLast(MatchConjComma, t, 0);
  }

  lemma AddFinalPeriodSpacing(t: string)
    requires SingleSpaced(t)
    ensures SingleSpaced(AddFinalPeriod(t)) && AddFinalPeriod(t)[0] == t[0]
  {
    if !IsTerminal(t[|t| - 1]) {
      NoPairConcat(t, ".", TwoBlanks);
    }
  }

  /** On single-spaced text \.\s+I\s+ -> . I changes nothing: every match
      is already ". I ". */
  lemma SentenceIIdentity(t: string)
    requires SingleSpaced(t)
    ensures SubAll(MatchSentenceI, t, 0) == t
  {
    forall q | 0 <= q < |t| ensures KeepsText(MatchSentenceI, t, q) {
      if Matched(MatchSentenceI, t, q).Some? {
        assert t[q + 1] == ' ';
        assert !BadPair(TwoBlanks, t[q + 1], t[q + 2]);
        SpaceEndAt(t, q + 1, q + 2);
        assert t[q + 3] == ' ';
        if q + 4 < |t| {
          assert !BadPair(TwoBlanks, t[q + 3], t[q + 4]);
        }
        SpaceEndAt(t, q + 3, q + 4);
        assert t[q..q + 4] == ". I ";
      }
    }
    SubAllIdentity(MatchSentenceI, t, 0);
  }

  // ---------------------------------------------------------------------
  // The function itself.

  const RuleStarters: seq<string> :=
    ["Yesterday", "Today", "Tomorrow", "Also", "However", "Therefore", "After that", "Then"]

  lemma RuleStartersSeparated()
    ensures Separated(RuleStarters)
  {
    var ws := RuleStarters;
    assert forall i :: 0 <= i < |ws| ==> |ws[i]| >= 4 && NoComma(ws[i]);
    assert ws[0][0] == 'Y' && ws[1][0] == 'T' && ws[2][0] == 'T' && ws[3][0] == 'A';
    assert ws[4][0] == 'H' && ws[5][0] == 'T' && ws[6][0] == 'A' && ws[7][0] == 'T';
    assert ws[1][3] == 'a' && ws[2][3] == 'o' && ws[5][3] == 'r' && ws[7][3] == 'n';
    assert ws[3][3] == 'o' && ws[6][3] == 'e';
    assert Keyed(ws);
    KeyedSeparated(ws);
  }

  /** The comma after an opening word keeps single spacing and the first
      character, whichever words of the list apply. */
  lemma {:induction false} CommaAfterOpenersSpacing(t: string, ws: seq<string>)
    requires SingleSpaced(t) && forall i :: 0 <= i < |ws| ==> ws[i] != []
    ensures SingleSpaced(CommaAfterOpeners(t, ws)) && CommaAfterOpeners(t, ws)[0] == t[0]
    decreases |ws|
  {
    if ws != [] {
      var t' := CommaAfterOpener(t, ws[0]);
      if StartsWith(t, ws[0] + " ") {
        OpenerCommaSpacing(t, ws[0]);
      }
      CommaAfterOpenersSpacing(t', ws[1..]);
    }
  }

  /** t[0].upper() + t[1:] if t else t */
  function CapitalizeIfAny(t: string): string
  {
    if t == [] then t else Capitalize(t)
  }

  /** if t and t[-1] not in ".!?": t += "." */
  function PeriodIfAny(t: string): string
  {
    if t == [] then t else AddFinalPeriod(t)
  }

  /** The text after the comma after an opening word. */
  function Opened(text: string): string
  {
    CommaAfterOpeners(CapitalizeIfAny(SubAll(MatchStandaloneI, Normalize(text), 0)), RuleStarters)
  }

  /** What punctuate_rules returns. */
  function PunctuateRulesOf(text: string): string
  {
    if Strip(Python, text) == [] then []
    else SubAll(MatchSentenceI, PeriodIfAny(SubAll(MatchConjComma, Opened(text), 0)), 0)
  }

  /** Before the conjunction commas the text is single spaced and starts
      with the upper-cased first visible character. */
  lemma OpenedSpec(text: string)
    requires Strip(Python, text) != []
    ensures SingleSpaced(Opened(text)) && Opened(text)[0] == Upper(Strip(Python, text)[0])
  {
    StripEmptyIffAllSpace(Python, text);
    NormalizeSpec(text);
    var t := Normalize(text);
    StandaloneISpacing(t);
    var t1 := SubAll(MatchStandaloneI, t, 0);
    CapitalizeSpacing(t1);
    CommaAfterOpenersSpacing(Capitalize(t1), RuleStarters);
  }

  /** punctuate_rules returns "" exactly for blank text. Otherwise its
      result is single spaced, ends in . ! or ?, starts with the
      upper-cased first visible character, and the last rewrite
      (\.\s+I\s+ -> . I ) has changed nothing. */
  lemma PunctuateRulesSpec(text: string)
    ensures var r := PunctuateRulesOf(text);
      (r == [] <==> forall k :: 0 <= k < |text| ==> IsPySpace(text[k])) &&
      (r != [] ==>
        SingleSpaced(r) && IsTerminal(r[|r| - 1]) && r[0] == Upper(Strip(Python, text)[0]) &&
        r == PeriodIfAny(SubAll(MatchConjComma, Opened(text), 0)))
  {
    StripEmptyIffAllSpace(Python, text);
    if Strip(Python, text) != [] {
      OpenedSpec(text);
      var t3 := Opened(text);
      ConjCommaSpacing(t3);
      var t4 := SubAll(MatchConjComma, t3, 0);
      AddFinalPeriodSpacing(t4);
      SentenceIIdentity(AddFinalPeriod(t4));
    }
  }

  /** punctuate_rules, with the loop over the opening words. */
  method PunctuateRules(text: string) returns (r: string)
    ensures r == PunctuateRulesOf(text)
  {
    if text == [] || Strip(Python, text) == [] {
      r := [];
    } else {
      var t := Normalize(text);
      t := SubAll(MatchStandaloneI, t, 0);
      t := CapitalizeIfAny(t);
      t := AddOpenerCommas(t, RuleStarters);
      t := SubAll(MatchConjComma, t, 0);
      ghost var commas := t;
      if t != [] && !IsTerminal(t[|t| - 1]) {
        t := t + ".";
      }
      assert t == PeriodIfAny(commas);
      t := SubAll(MatchSentenceI, t, 0);
      r := t;
    }
  }
}
