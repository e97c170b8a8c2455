/** basic_punctuate (src/grammar_correction/formatting.py): strip,
    capitalise, close with a period, put a comma after a leading
    introductory word, a comma before and/but/so/because followed by I, and
    a comma before the first "and" between two words. */
module Formatting {
  import opened Chars
  import opened Regex
  import opened Punctuate

  /** What basic_punctuate produces: the text, or the IndexError it raises
      on text that is not empty but only whitespace (the guard tests for
      the empty string only, and the stripped text is then indexed). */
  datatype Punctuated = Text(value: string) | IndexError

  const IntroWords: seq<string> :=
    ["Yesterday", "Today", "Tomorrow", "However", "Therefore", "Moreover",
     "After that", "In addition", "For example"]

  /** After the intro-word loop. */
  function Introduced(text: string): string
    requires Strip(Python, text) != []
  {
    CommaAfterOpeners(Sentence(text), IntroWords)
  }

  /** After the conjunction rule (\w{4,})\s+(and|but|so|because)\s+I\s+. */
  function Conjoined(text: string): string
    requires Strip(Python, text) != []
  {
    SubAll(MatchConjI, Introduced(text), 0)
  }

  /** What basic_punctuate returns or raises. */
  function BasicPunctuateOf(text: string): Punctuated
  {
    if text == [] then Text([])
    else if Strip(Python, text) == [] then IndexError
    else Text(SubFirst(MatchListAnd, Conjoined(text), 0))
  }

  method BasicPunctuate(text: string) returns (r: Punctuated)
    ensures r == BasicPunctuateOf(text)
  {
    if text == [] {
      return Text([]);
    }
    var t := Strip(Python, text);
    if t == [] {
      return IndexError;
    }
    t := Capitalize(t);
    if !IsTerminal(t[|t| - 1]) {
      t := t + ".";
    }
    assert t == Sentence(text);
    t := AddOpenerCommas(t, IntroWords);
    t := SubAll(MatchConjI, t, 0);
    t := SubFirst(MatchListAnd, t, 0);
    r := Text(t);
  }

  lemma IntroWordsSeparated()
    ensures Separated(IntroWords)
  {
    var ws := IntroWords;
    assert forall i :: 0 <= i < |ws| ==> |ws[i]| >= 4 && NoComma(ws[i]);
    assert ws[0][0] == 'Y' && ws[1][0] == 'T' && ws[2][0] == 'T' && ws[3][0] == 'H' && ws[4][0] == 'T';
    assert ws[5][0] == 'M' && ws[6][0] == 'A' && ws[7][0] == 'I' && ws[8][0] == 'F';
    assert ws[1][3] == 'a' && ws[2][3] == 'o' && ws[4][3] == 'r';
    assert Keyed(ws);
    KeyedSeparated(ws);
  }

  /** The intro-word loop keeps the first and the last character of text
      that ends in a visible character. */
  lemma {:induction false} CommaAfterOpenersEnds(t: string, ws: seq<string>)
    requires t != [] && !IsPySpace(t[|t| - 1])
    requires forall i :: 0 <= i < |ws| ==> ws[i] != []
    ensures var r := CommaAfterOpeners(t, ws);
      r != [] && r[0] == t[0] && r[|r| - 1] == t[|t| - 1]
    decreases |ws|
  {
    if ws != [] {
      CommaAfterOpenerEnds(t, ws[0]);
      CommaAfterOpenersEnds(CommaAfterOpener(t, ws[0]), ws[1..]);
    }
  }

  lemma CommaAfterOpenerEnds(t: string, w: string)
    requires t != [] && !IsPySpace(t[|t| - 1]) && w != []
    ensures var r := CommaAfterOpener(t, w);
      r != [] && r[0] == t[0] && r[|r| - 1] == t[|t| - 1]
  {
    if StartsWith(t, w + " ") {
      assert t[|w|] == ' ';
      var r := w + ", " + t[|w| + 1..];
      assert r[0] == w[0] == t[0];
      LastOfConcat(w + ", ", t[|w| + 1..]);
    }
  }

  /** No ConjI match reaches the end of text that ends in a visible
      character, and no ListAnd match reaches the end of text that ends in
      a character outside \w. */
  lemma ConjIKeepsLast(t: string)
    requires t != [] && !IsPySpace(t[|t| - 1])
    ensures forall q :: 0 <= q < |t| ==> KeepsLast(MatchConjI, t, q)
  {
    forall q | 0 <= q < |t| ensures KeepsLast(MatchConjI, t, q) {
      if Matched(MatchConjI, t, q).Some? {
        ConjIEndsInSpace(t, q);
      }
    }
  }

  lemma ListAndKeepsLast(t: string)
    requires t != [] && !IsWordChar(t[|t| - 1])
    ensures forall q :: 0 <= q < |t| ==> KeepsLast(MatchListAnd, t, q)
  {
    forall q | 0 <= q < |t| ensures KeepsLast(MatchListAnd, t, q) {
      if Matched(MatchListAnd, t, q).Some? {
        ListAndEndsInWord(t, q);
      }
    }
  }

  /** basic_punctuate returns "" for "", raises exactly for non-empty text
      that is only whitespace, and otherwise returns text that starts with
      the upper-cased first visible character and ends with the stripped
      text's own . ! or ?, or with the period it added. */
  lemma BasicPunctuateSpec(text: string)
    ensures text == [] ==> BasicPunctuateOf(text) == Text([])
    ensures BasicPunctuateOf(text).IndexError? <==>
      text != [] && forall k :: 0 <= k < |text| ==> IsPySpace(text[k])
    ensures BasicPunctuateOf(text).Text? && text != [] ==>
      var r, s := BasicPunctuateOf(text).value, Strip(Python, text);
      s != [] && r != [] && r[0] == Upper(s[0]) &&
      r[|r| - 1] == (if IsTerminal(s[|s| - 1]) then s[|s| - 1] else '.')
  {
    StripEmptyIffAllSpace(Python, text);
    if text != [] && Strip(Python, text) != [] {
      SentenceSpec(text);
      BasicPunctuateEnds(text);
    }
  }

  /** The three comma rules keep the sentence's first and last character. */
  lemma BasicPunctuateEnds(text: string)
    requires Strip(Python, text) != []
    ensures var t, r := Sentence(text), SubFirst(MatchListAnd, Conjoined(text), 0);
      r != [] && r[0] == t[0] && r[|r| - 1] == t[|t| - 1]
  {
    SentenceSpec(text);
    IntroRulesEnds(Sentence(text));
  }

  lemma IntroRulesEnds(t: string)
    requires t != [] && IsTerminal(t[|t| - 1])
    ensures var r := SubFirst(MatchListAnd, SubAll(MatchConjI, CommaAfterOpeners(t, IntroWords), 0), 0);
      r != [] && r[0] == t[0] && r[|r| - 1] == t[|t| - 1]
  {
    IntroWordsNonEmpty();
    CommaRulesEnds(t, IntroWords);
  }

  lemma CommaRulesEnds(t: string, ws: seq<string>)
    requires t != [] && IsTerminal(t[|t| - 1])
    requires forall i :: 0 <= i < |ws| ==> ws[i] != []
    ensures var r := SubFirst(MatchListAnd, SubAll(MatchConjI, CommaAfterOpeners(t, ws), 0), 0);
      r != [] && r[0] == t[0] && r[|r| - 1] == t[|t| - 1]
  {
    CommaAfterOpenersEnds(t, ws);
    ConjIListAndEnds(CommaAfterOpeners(t, ws));
  }

  lemma ConjIListAndEnds(t: string)
    requires t != [] && IsTerminal(t[|t| - 1])
    ensures var r := SubFirst(MatchListAnd, SubAll(MatchConjI, t, 0), 0);
      r != [] && r[0] == t[0] && r[|r| - 1] == t[|t| - 1]
  {
    ConjIEnds(t);
    ListAndEnds(SubAll(MatchConjI, t, 0));
  }

  /** The conjunction rule keeps the first character and a final . ! or ? */
  lemma ConjIEnds(t: string)
    requires t != [] && IsTerminal(t[|t| - 1])
    ensures var u := SubAll(MatchConjI, t, 0); u != [] && u[0] == t[0] && u[|u| - 1] == t[|t| - 1]
  {
    ConjIKeepsLast(t);
    SubAllLast(MatchConjI, t, 0);
    SubAllHead(MatchConjI, t, 0);
    if Matched(MatchConjI, t, 0).Some? {
      ConjIEndsInSpace(t, 0);
    }
  }

  /** The list rule keeps the first character and a final . ! or ? */
  lemma ListAndEnds(t: string)
    requires t != [] && IsTerminal(t[|t| - 1])
    ensures var u := SubFirst(MatchListAnd, t, 0); u != [] && u[0] == t[0] && u[|u| - 1] == t[|t| - 1]
  {
    ListAndKeepsLast(t);
    SubFirstLast(MatchListAnd, t, 0);
    SubFirstHead(MatchListAnd, t, 0);
    if Matched(MatchListAnd, t, 0).Some? {
      ListAndEndsInWord(t, 0);
    }
  }

  lemma IntroWordsNonEmpty()
    ensures forall i :: 0 <= i < |IntroWords| ==> IntroWords[i] != []
  {
  }

  /** When the capitalised, period-closed text starts with an intro word
      and a blank, that word alone gets a comma after it. */
  lemma IntroWordComma(text: string, i: nat)
    requires Strip(Python, text) != [] && i < |IntroWords|
    requires StartsWith(Sentence(text), IntroWords[i] + " ")
    ensures Introduced(text) == IntroWords[i] + ", " + Sentence(text)[|IntroWords[i]| + 1..]
  {
    IntroWordsSeparated();
    CommaAfterOpenersSpec(Sentence(text), IntroWords);
  }

  /** Text that starts with no intro word and a blank is left as it is. */
  lemma NoIntroWord(text: string)
    requires Strip(Python, text) != []
    requires forall i :: 0 <= i < |IntroWords| ==> !StartsWith(Sentence(text), IntroWords[i] + " ")
    ensures Introduced(text) == Sentence(text)
  {
    IntroWordsSeparated();
    CommaAfterOpenersSpec(Sentence(text), IntroWords);
  }

  /** Only the leftmost "word and word" gets its comma: the text before it
      and the text after it are returned unchanged. */
  lemma ListCommaFirstOnly(text: string)
    requires Strip(Python, text) != []
    ensures var t, q := Conjoined(text), FirstMatch(MatchListAnd, Conjoined(text), 0);
      BasicPunctuateOf(text) ==
        if q == -1 then Text(t)
        else Text(t[..q] + Matched(MatchListAnd, t, q).value.text + t[Matched(MatchListAnd, t, q).value.end..])
  {
    var t := Conjoined(text);
    SubFirstSpec(MatchListAnd, t, 0);
    assert t[0..] == t;
    var q := FirstMatch(MatchListAnd, t, 0);
    if q != -1 {
      assert t[0..q] == t[..q];
    }
  }

  // ---------------------------------------------------------------------
  // Blank input. The guard only catches "", so text made of whitespace is
  // stripped to "" and then indexed, which raises; the two other
  // punctuators return "" for it.

  /** A single blank makes basic_punctuate raise. */
  lemma BlankInputRaises()
    ensures BasicPunctuateOf(" ") == IndexError
  {
    assert SkipSpace(Python, " ", 0) == 1;
  }

  /** basic_punctuate with the guard the other punctuators use: "" for
      empty and blank text alike, the source's result otherwise. */
  function BasicPunctuateGuarded(text: string): string
  {
    if Strip(Python, text) == [] then [] else SubFirst(MatchListAnd, Conjoined(text), 0)
  }

  /** The guarded version never fails, returns "" exactly for blank text,
      and agrees with the source wherever the source returns. */
  lemma BasicPunctuateGuardedSpec(text: string)
    ensures BasicPunctuateGuarded(text) == [] <==> forall k :: 0 <= k < |text| ==> IsPySpace(text[k])
    ensures BasicPunctuateOf(text).Text? ==> BasicPunctuateGuarded(text) == BasicPunctuateOf(text).value
    ensures BasicPunctuateOf(text).IndexError? ==> BasicPunctuateGuarded(text) == []
  {
    StripEmptyIffAllSpace(Python, text);
    if Strip(Python, text) != [] {
      SentenceSpec(text);
      BasicPunctuateEnds(text);
    }
  }
}
