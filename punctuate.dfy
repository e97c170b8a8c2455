/** ensure_sentence_end (src/nlp/punctuate.py) and the two sentence steps
    the three punctuators share: upper-casing the first character and
    adding a final period. */
module Punctuate {
  import opened Chars
  import opened Regex

  /** t[0].upper() + t[1:] */
  function Capitalize(t: string): (r: string)
    requires t != []
    ensures |r| == |t| && r[0] == Upper(t[0]) && r[1..] == t[1..]
  {
    [Upper(t[0])] + t[1..]
  }

  /** Appends "." unless the text already ends in . ! or ?. */
  function AddFinalPeriod(t: string): (r: string)
    requires t != []
    ensures r != [] && IsTerminal(r[|r| - 1])
    ensures r == t || r == t + "."
    ensures IsTerminal(t[|t| - 1]) ==> r == t
  {
    if IsTerminal(t[|t| - 1]) then t else t + "."
  }

  /** Upper-casing never turns a visible character into whitespace. */
  lemma UpperNotSpace(c: char)
    requires !IsPySpace(c)
    ensures !IsPySpace(Upper(c)) && Upper(Upper(c)) == Upper(c)
  {
  }

  /** The text ensure_sentence_end rewrites: stripped, capitalised and
      closed with a period. */
  function Sentence(text: string): string
    requires Strip(Python, text) != []
  {
    AddFinalPeriod(Capitalize(Strip(Python, text)))
  }

  /** The sentence starts with the upper-cased first visible character and
      ends with the stripped text's own terminal mark, or with the period
      added when it had none. */
  lemma SentenceSpec(text: string)
    requires Strip(Python, text) != []
    ensures var s, t := Strip(Python, text), Sentence(text);
      t != [] && !IsPySpace(t[0]) && t[0] == Upper(s[0]) && Upper(t[0]) == t[0] &&
      IsTerminal(t[|t| - 1]) &&
      t[|t| - 1] == if IsTerminal(s[|s| - 1]) then s[|s| - 1] else '.'
  {
    var s := Strip(Python, text);
    StripSpec(Python, text);
    UpperNotSpace(s[0]);
    SentenceLast(s);
  }

  lemma SentenceLast(s: string)
    requires s != []
    ensures var t := AddFinalPeriod(Capitalize(s));
      t[|t| - 1] == if IsTerminal(s[|s| - 1]) then s[|s| - 1] else '.'
  {
    var c := Capitalize(s);
    assert c[|c| - 1] == Upper(s[|s| - 1]) || c[|c| - 1] == s[|s| - 1];
    assert IsTerminal(c[|c| - 1]) <==> IsTerminal(s[|s| - 1]);
    if IsTerminal(s[|s| - 1]) {
      assert c[|c| - 1] == s[|s| - 1] by {
        if |s| > 1 {
          assert c[|c| - 1] == c[1..][|c| - 2] == s[1..][|s| - 2];
        }
      }
    }
  }

  /** ensure_sentence_end: "" for text that is empty or only whitespace;
      otherwise the sentence with whitespace before punctuation removed and
      a blank put between punctuation and a following letter. */
  function EnsureSentenceEnd(text: string): string
  {
    if Strip(Python, text) == [] then []
    else
      var t := Sentence(text);
      SubAll(MatchPunctLetter, SubAll(MatchSpaceBeforePunct, t, 0), 0)
  }

  /** The result is empty exactly for blank input; otherwise it starts with
      the upper-cased first visible character, ends in . ! or ?, has no
      whitespace before punctuation and no letter right after punctuation,
      and differs from the stripped, capitalised, period-closed text only
      in whitespace. */
  lemma EnsureSentenceEndSpec(text: string)
    ensures var r := EnsureSentenceEnd(text);
      (r == [] <==> forall k :: 0 <= k < |text| ==> IsPySpace(text[k])) &&
      (r != [] ==>
        r[0] == Upper(Strip(Python, text)[0]) && IsTerminal(r[|r| - 1]) &&
        NoPair(r, SpaceThenPunct) && NoPair(r, PunctThenLetter) &&
        Visible(r) == Visible(Sentence(text)))
  {
    StripEmptyIffAllSpace(Python, text);
    if Strip(Python, text) != [] {
      var t := Sentence(text);
      SentenceSpec(text);
      var t2 := SubAll(MatchSpaceBeforePunct, t, 0);
      var r := SubAll(MatchPunctLetter, t2, 0);
      PunctRulesKeepLast(t);
      SubAllLast(MatchSpaceBeforePunct, t, 0);
      PunctRulesKeepLast(t2);
      SubAllLast(MatchPunctLetter, t2, 0);
      assert Matched(MatchSpaceBeforePunct, t, 0).None?;
      SubAllHead(MatchSpaceBeforePunct, t, 0);
      SubAllHead(MatchPunctLetter, t2, 0);
      SpaceBeforePunctRemoved(t, 0);
      PunctLetterSeparated(t2, 0);
      PunctRulesKeepVisible(t);
      SubAllVisible(MatchSpaceBeforePunct, t, 0);
      PunctRulesKeepVisible(t2);
      SubAllVisible(MatchPunctLetter, t2, 0);
    }
  }

  /** A sentence that already has every property ensure_sentence_end
      establishes is left as it is. */
  lemma EnsureSentenceEndFixes(r: string)
    requires r != [] && !IsPySpace(r[0]) && Upper(r[0]) == r[0] && IsTerminal(r[|r| - 1])
    requires NoPair(r, SpaceThenPunct) && NoPair(r, PunctThenLetter)
    ensures EnsureSentenceEnd(r) == r
  {
    StripOfTrimmed(Python, r);
    assert Sentence(r) == r by {
      assert Capitalize(r) == r;
    }
    SpaceBeforePunctAbsent(r);
    NoMatchIdentity(MatchSpaceBeforePunct, r);
    PunctLetterAbsent(r);
    NoMatchIdentity(MatchPunctLetter, r);
  }

  /** Applying ensure_sentence_end twice gives the same text as once. */
  lemma EnsureSentenceEndIdempotent(text: string)
    ensures EnsureSentenceEnd(EnsureSentenceEnd(text)) == EnsureSentenceEnd(text)
  {
    var r := EnsureSentenceEnd(text);
    EnsureSentenceEndSpec(text);
    if r != [] {
      assert !IsPySpace(r[0]) && Upper(r[0]) == r[0] by {
        SentenceSpec(text);
        UpperNotSpace(Strip(Python, text)[0]);
      }
      EnsureSentenceEndFixes(r);
    }
  }

  // ---------------------------------------------------------------------
  // The comma after an opening word: for each word w of a list, in order,
  // if the text starts with w + " " its first w + " " becomes w + ", ".

  /** What one step of the loop leaves: str.replace(w + " ", w + ", ", 1)
      on text that starts with w + " " replaces that leading occurrence
      (ReplaceOnceAtFront). */
  function CommaAfterOpener(t: string, w: string): (r: string)
  {
    if StartsWith(t, w + " ") then w + ", " + t[|w| + 1..] else t
  }

  /** The result of the source's loop over the whole list. */
  function CommaAfterOpeners(t: string, ws: seq<string>): string
    decreases |ws|
  {
    if ws == [] then t else CommaAfterOpeners(CommaAfterOpener(t, ws[0]), ws[1..])
  }

  lemma OpenersStep(t: string, ws: seq<string>, i: nat)
    requires i < |ws|
    ensures CommaAfterOpeners(t, ws[i..]) == CommaAfterOpeners(CommaAfterOpener(t, ws[i]), ws[i + 1..])
  {
    assert ws[i..][1..] == ws[i + 1..];
  }

  /** The loop over the opening words: each one the text starts with,
      followed by a blank, gets a comma after it. */
  method AddOpenerCommas(t0: string, ws: seq<string>) returns (t: string)
    ensures t == CommaAfterOpeners(t0, ws)
  {
    t := t0;
    var i := 0;
    while i < |ws|
      invariant 0 <= i <= |ws|
      invariant CommaAfterOpeners(t, ws[i..]) == CommaAfterOpeners(t0, ws)
    {
      var w := ws[i];
      OpenersStep(t, ws, i);
      if StartsWith(t, w + " ") {
        ReplaceOnceAtFront(t, w + " ", w + ", ");
        t := ReplaceOnce(t, w + " ", w + ", ");
      }
      i := i + 1;
    }
  }

  predicate NoComma(w: string) { forall k :: 0 <= k < |w| ==> w[k] != ',' }

  /** No word of the list contains a comma, and no word followed by a blank
      begins another word followed by a blank: then at most one opener
      applies, and once it has, no later one does. */
  predicate Separated(ws: seq<string>)
  {
    (forall i :: 0 <= i < |ws| ==> NoComma(ws[i])) &&
    forall i, j :: 0 <= i < |ws| && 0 <= j < |ws| && i != j ==> !StartsWith(ws[i] + " ", ws[j] + " ")
  }

  /** After one opener got its comma, no other opener of the list matches. */
  lemma OpenerExcludesOthers(ws: seq<string>, i: nat, j: nat, rest: string)
    requires Separated(ws) && i < |ws| && j < |ws| && i != j
    ensures !StartsWith(ws[i] + ", " + rest, ws[j] + " ")
  {
    var a, b := ws[i], ws[j];
    var t := a + ", " + rest;
    if |b| < |a| {
      assert !StartsWith(a + " ", b + " ");
    } else if |b| == |a| {
      assert t[|a|] == ',';
    } else {
      assert NoComma(b);
    }
  }

  /** The opener that t starts with, if any, gets its comma, and nothing
      else changes; text that starts with no opener is left as it is. */
  lemma {:induction false} CommaAfterOpenersSpec(t: string, ws: seq<string>)
    requires Separated(ws)
    ensures forall i :: 0 <= i < |ws| && StartsWith(t, ws[i] + " ") ==>
      CommaAfterOpeners(t, ws) == ws[i] + ", " + t[|ws[i]| + 1..]
    ensures (forall i :: 0 <= i < |ws| ==> !StartsWith(t, ws[i] + " ")) ==> CommaAfterOpeners(t, ws) == t
    decreases |ws|
  {
    if ws != [] {
      SeparatedTail(ws);
      if StartsWith(t, ws[0] + " ") {
        var t' := ws[0] + ", " + t[|ws[0]| + 1..];
        assert forall j :: 0 <= j < |ws[1..]| ==> !StartsWith(t', ws[1..][j] + " ") by {
          forall j | 0 <= j < |ws[1..]| ensures !StartsWith(t', ws[1..][j] + " ") {
            OpenerExcludesOthers(ws, 0, j + 1, t[|ws[0]| + 1..]);
          }
        }
        CommaAfterOpenersSpec(t', ws[1..]);
        forall i | 0 <= i < |ws| && StartsWith(t, ws[i] + " ")
          ensures i == 0
        {
          if i != 0 {
            OpenersExclusive(ws, t, 0, i);
          }
        }
      } else {
        assert CommaAfterOpener(t, ws[0]) == t;
        CommaAfterOpenersSpec(t, ws[1..]);
      }
    }
  }

  lemma SeparatedTail(ws: seq<string>)
    requires Separated(ws) && ws != []
    ensures Separated(ws[1..])
  {
    var ws' := ws[1..];
    forall i, j | 0 <= i < |ws'| && 0 <= j < |ws'| && i != j
      ensures !StartsWith(ws'[i] + " ", ws'[j] + " ")
    {
      assert ws'[i] == ws[i + 1] && ws'[j] == ws[j + 1];
    }
  }

  /** Two different openers of a separated list cannot both start t. */
  lemma OpenersExclusive(ws: seq<string>, t: string, i: nat, j: nat)
    requires Separated(ws) && i < |ws| && j < |ws| && i != j
    requires StartsWith(t, ws[i] + " ")
    ensures !StartsWith(t, ws[j] + " ")
  {
    var a, b := ws[i] + " ", ws[j] + " ";
    assert !StartsWith(a, b) && !StartsWith(b, a);
  }

  /** A list whose words all have at least four letters, no comma, and
      pairwise different first-and-fourth letters. Both opener lists of the
      source are keyed, which is a cheap way to see that they are separated. */
  predicate Keyed(ws: seq<string>)
  {
    (forall i :: 0 <= i < |ws| ==> |ws[i]| >= 4 && NoComma(ws[i])) &&
    forall i, j :: 0 <= i < |ws| && 0 <= j < |ws| && i != j ==> ws[i][0] != ws[j][0] || ws[i][3] != ws[j][3]
  }

  lemma KeyedSeparated(ws: seq<string>)
    requires Keyed(ws)
    ensures Separated(ws)
  {
    forall i, j | 0 <= i < |ws| && 0 <= j < |ws| && i != j
      ensures !StartsWith(ws[i] + " ", ws[j] + " ")
    {
      var a, b := ws[i] + " ", ws[j] + " ";
      assert a[0] == ws[i][0] && a[3] == ws[i][3];
      assert b[0] == ws[j][0] && b[3] == ws[j][3];
      assert |b| > 3;
    }
  }
}
