/** correct_with_languagetool of the nlp package: the same end-to-start
    splice loop as the grammar-correction client, but the text is not
    stripped, an empty first replacement value is applied (it deletes the
    span), and a first replacement without a value makes the function
    raise. The service call is not modelled: its match list is a
    parameter. */
module NlpGrammar {
  import opened Chars
  import opened Splice
  import LanguageToolClient

  /** The dictionary the function returns, or Raised when it fails with an
      exception. */
  datatype GrammarResult =
    | Answer(ok: bool, corrected: string, matches: seq<LtMatch>, modeUsed: string)
    | Raised

  const Mode := "languagetool"

  /** A first replacement without a value: reading reps[0]["value"] fails
      when the key is missing, and the concatenation fails when it is
      null. */
  predicate Raises(m: LtMatch) { m.replacements != [] && m.replacements[0].value.None? }

  predicate AnyRaises(ms: seq<LtMatch>) { exists i :: 0 <= i < |ms| && Raises(ms[i]) }

  /** not text or not text.strip() */
  predicate Blank(text: Option<string>)
  {
    text.None? || text.value == [] || Strip(Python, text.value) == []
  }

  function GrammarOf(text: Option<string>, matches: seq<LtMatch>): GrammarResult
  {
    if Blank(text) then Answer(true, [], [], Mode)
    else if AnyRaises(matches) then Raised
    else Answer(true, ApplyAll(text.value, Applicable(SortDesc(matches), false)), matches, Mode)
  }

  method CorrectWithLanguageTool(text: Option<string>, matches: seq<LtMatch>) returns (r: GrammarResult)
    ensures r == GrammarOf(text, matches)
    ensures r.Answer? ==> r.ok && r.modeUsed == Mode
    ensures Blank(text) ==> r == Answer(true, [], [], Mode)
  {
    if text.None? || text.value == [] || Strip(Python, text.value) == [] {
      return Answer(true, [], [], Mode);
    }
    var sorted := SortDesc(matches);
    var corrected, raised := ApplySorted(text.value, sorted);
    SortedRaises(matches);
    if raised {
      return Raised;
    }
    r := Answer(true, corrected, matches, Mode);
  }

  /** The loop over the sorted matches: matches without replacements are
      skipped, the others are spliced in the order given, and the first one
      whose first replacement has no value stops the loop with an
      error. */
  method ApplySorted(t: string, sorted: seq<LtMatch>) returns (corrected: string, raised: bool)
    ensures raised <==> AnyRaises(sorted)
    ensures !raised ==> corrected == ApplyAll(t, Applicable(sorted, false))
  {
    corrected := t;
    for i := 0 to |sorted|
      invariant forall j :: 0 <= j < i ==> !Raises(sorted[j])
      invariant ApplyAll(corrected, Applicable(sorted[i..], false)) == ApplyAll(t, Applicable(sorted, false))
    {
      ApplicableStep(sorted, i, false, corrected);
      ghost var before := corrected;
      var m := sorted[i];
      var reps := m.replacements;
      if reps != [] {
        var repl := reps[0].value;
        if repl.None? {
          return corrected, true;
        }
        assert Applies(m, false) && Value(m) == repl.value;
        corrected := Prefix(corrected, m.offset) + repl.value + Suffix(corrected, m.offset + m.length);
        assert corrected == ApplyMatch(before, m);
      } else {
        assert !Applies(m, false);
      }
    }
    raised := false;
  }

  /** Sorting neither adds nor removes a match that raises. */
  lemma SortedRaises(ms: seq<LtMatch>)
    ensures AnyRaises(SortDesc(ms)) <==> AnyRaises(ms)
  {
    var s := SortDesc(ms);
    SortDescSpec(ms);
    if AnyRaises(s) {
      var i :| 0 <= i < |s| && Raises(s[i]);
      assert s[i] in multiset(ms);
      var j :| 0 <= j < |ms| && ms[j] == s[i];
    }
    if AnyRaises(ms) {
      var i :| 0 <= i < |ms| && Raises(ms[i]);
      assert ms[i] in multiset(s);
      var j :| 0 <= j < |s| && s[j] == ms[i];
    }
  }

  /** The text is not stripped: with no match that has a replacement, the
      corrected text is the input exactly as given. */
  lemma NoEditKeepsText(text: Option<string>, matches: seq<LtMatch>)
    requires !Blank(text)
    requires forall i :: 0 <= i < |matches| ==> matches[i].replacements == []
    ensures GrammarOf(text, matches) == Answer(true, text.value, matches, Mode)
  {
    NothingApplicable(text.value, matches, false);
  }

  /** An empty first replacement value is applied: it deletes the span. */
  lemma EmptyValueDeletes(text: Option<string>, m: LtMatch)
    requires !Blank(text) && End(m) <= |text.value|
    requires m.replacements != [] && m.replacements[0].value == Some([])
    ensures GrammarOf(text, [m]) == Answer(true, text.value[..m.offset] + text.value[End(m)..], [m], Mode)
  {
    var t := text.value;
    assert !AnyRaises([m]);
    assert SortDesc([m]) == [m];
    assert Applicable([m], false) == [m];
    assert ApplyAll(t, [m]) == ApplyAll(ApplyMatch(t, m), []);
    assert ApplyMatch(t, m) == t[..m.offset] + t[End(m)..];
  }

  /** A match without replacements changes nothing: the result is the one
      for the list without it (apart from the list handed back). */
  lemma SkippedMatchIgnored(text: Option<string>, matches: seq<LtMatch>, i: nat)
    requires i < |matches| && matches[i].replacements == []
    ensures var r, r' := GrammarOf(text, matches), GrammarOf(text, matches[..i] + matches[i + 1..]);
      r.Raised? == r'.Raised? && (r.Answer? ==> r.corrected == r'.corrected)
  {
    InapplicableDropped(matches, i, false);
    DropKeepsRaises(matches, i);
  }

  lemma DropKeepsRaises(ms: seq<LtMatch>, i: nat)
    requires i < |ms| && !Raises(ms[i])
    ensures AnyRaises(ms) <==> AnyRaises(ms[..i] + ms[i + 1..])
  {
    var rest := ms[..i] + ms[i + 1..];
    if AnyRaises(ms) {
      var j :| 0 <= j < |ms| && Raises(ms[j]);
      if j < i {
        assert rest[j] == ms[j];
      } else {
        assert rest[j - 1] == ms[j];
      }
    }
    if AnyRaises(rest) {
      var j :| 0 <= j < |rest| && Raises(rest[j]);
      if j < i {
        assert rest[j] == ms[j];
      } else {
        assert rest[j] == ms[j + 1];
      }
    }
  }

  /** For applied matches that start at different offsets, do not overlap
      and lie inside the text, the corrected text is the left-to-right
      reconstruction with each span replaced at its original offset. */
  lemma CorrectedIsRebuild(text: Option<string>, matches: seq<LtMatch>)
    requires !Blank(text) && !AnyRaises(matches)
    requires PairwiseApart(Applicable(matches, false)) && InRange(text.value, Applicable(matches, false))
    ensures var a := Applicable(matches, false); var asc := Reverse(SortDesc(a));
      multiset(asc) == multiset(a) && Chain(text.value, asc, 0) &&
      GrammarOf(text, matches).corrected == Rebuild(text.value, asc, 0)
  {
    ApplicableSortDesc(matches, false);
    SortedIsRebuild(text.value, Applicable(matches, false));
  }

  /** On text with no surrounding whitespace and matches that all have a
      non-empty first value (or no replacement), the two clients agree. */
  lemma ClientsAgree(text: Option<string>, matches: seq<LtMatch>)
    requires !Blank(text) && Strip(Python, text.value) == text.value
    requires forall i :: 0 <= i < |matches| ==> !Raises(matches[i]) && !(HasValue(matches[i]) && Value(matches[i]) == [])
    ensures GrammarOf(text, matches) == Answer(true, LanguageToolClient.CorrectedOf(text, matches), matches, Mode)
  {
    ApplicableSortDesc(matches, true);
    ApplicableSortDesc(matches, false);
    SameApplicable(matches);
  }

  lemma {:induction false} SameApplicable(ms: seq<LtMatch>)
    requires forall i :: 0 <= i < |ms| ==> !(HasValue(ms[i]) && Value(ms[i]) == [])
    ensures Applicable(ms, true) == Applicable(ms, false)
  {
    if ms != [] {
      SameApplicable(ms[1..]);
    }
  }
}
