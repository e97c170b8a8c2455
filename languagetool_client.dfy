/** correct_with_languagetool of the grammar-correction package: the text is
    stripped, blank text is answered at once, and otherwise the matches the
    LanguageTool service reports are applied from the highest offset down.
    A match is skipped when it has no replacement, or when its first
    replacement's value is missing or empty. The service call itself is not
    modelled: its match list is a parameter. */
module LanguageToolClient {
  import opened Chars
  import opened Splice

  /** The text that is checked: (text or "").strip(). */
  function Checked(text: Option<string>): string
  {
    Strip(Python, if text.Some? then text.value else [])
  }

  /** The corrected text returned for the service's answer matches. */
  function CorrectedOf(text: Option<string>, matches: seq<LtMatch>): string
  {
    var t := Checked(text);
    if t == [] then [] else ApplyAll(t, Applicable(SortDesc(matches), true))
  }

  /** The pair (corrected, matches) the function returns. The match list is
      handed back as the service sent it, unsorted; blank text gives back
      no matches. */
  method CorrectWithLanguageTool(text: Option<string>, matches: seq<LtMatch>)
    returns (corrected: string, returned: seq<LtMatch>)
    ensures corrected == CorrectedOf(text, matches)
    ensures returned == if Checked(text) == [] then [] else matches
    ensures Checked(text) == [] ==> corrected == []
  {
    var t := Strip(Python, if text.Some? then text.value else []);
    if t == [] {
      return [], [];
    }
    corrected := ApplySorted(t, SortDesc(matches));
    returned := matches;
  }

  /** The loop over the sorted matches: each applied match's span is
      replaced, in the order given. */
  method ApplySorted(t: string, sorted: seq<LtMatch>) returns (corrected: string)
    ensures corrected == ApplyAll(t, Applicable(sorted, true))
  {
    corrected := t;
    for i := 0 to |sorted|
      invariant ApplyAll(corrected, Applicable(sorted[i..], true)) == ApplyAll(t, Applicable(sorted, true))
    {
      ApplicableStep(sorted, i, true, corrected);
      ghost var before := corrected;
      var m := sorted[i];
      var repls := m.replacements;
      if repls != [] {
        var best := repls[0].value;
        if best.Some? && best.value != [] {
          assert Applies(m, true) && Value(m) == best.value;
          corrected := Prefix(corrected, m.offset) + best.value + Suffix(corrected, m.offset + m.length);
          assert corrected == ApplyMatch(before, m);
        } else {
          assert !Applies(m, true);
        }
      } else {
        assert !Applies(m, true);
      }
    }
  }

  /** With no match that is applied, the corrected text is the stripped
      input. */
  lemma NoEditKeepsStripped(text: Option<string>, matches: seq<LtMatch>)
    requires forall i :: 0 <= i < |matches| ==> !Applies(matches[i], true)
    ensures CorrectedOf(text, matches) == Checked(text)
  {
    NothingApplicable(Checked(text), matches, true);
  }

  /** A match without a replacement, or whose first replacement has a
      missing or empty value, changes nothing: the result is the one for the
      list without it. */
  lemma SkippedMatchIgnored(text: Option<string>, matches: seq<LtMatch>, i: nat)
    requires i < |matches|
    requires matches[i].replacements == [] || matches[i].replacements[0].value.None? ||
      matches[i].replacements[0].value == Some([])
    ensures CorrectedOf(text, matches) == CorrectedOf(text, matches[..i] + matches[i + 1..])
  {
    InapplicableDropped(matches, i, true);
  }

  /** When the applied matches start at different offsets, do not overlap
      and lie inside the stripped text, the corrected text is the stripped
      text read from left to right, with each applied match's span replaced
      by its value at its original offset. */
  lemma CorrectedIsRebuild(text: Option<string>, matches: seq<LtMatch>)
    requires Checked(text) != []
    requires PairwiseApart(Applicable(matches, true)) && InRange(Checked(text), Applicable(matches, true))
    ensures var a := Applicable(matches, true); var asc := Reverse(SortDesc(a));
      multiset(asc) == multiset(a) && Chain(Checked(text), asc, 0) &&
      CorrectedOf(text, matches) == Rebuild(Checked(text), asc, 0)
  {
    ApplicableSortDesc(matches, true);
    SortedIsRebuild(Checked(text), Applicable(matches, true));
  }
}
