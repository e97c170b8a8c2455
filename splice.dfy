/** The splice-list algorithm both LanguageTool clients share: the
    service's matches are sorted by offset, highest first, and each match's
    span is replaced by its first suggested replacement, so that the offsets
    of the matches still to be applied keep pointing at the text they were
    computed for. */
module Splice {
  import opened Chars

  /** One suggestion of a match; value is None when the field is missing
      or null. */
  datatype Replacement = Replacement(value: Option<string>)

  /** A LanguageTool match: the span [offset, offset + length) of the
      checked text and its suggested replacements, best first (a missing
      list is the empty list). */
  datatype LtMatch = LtMatch(offset: nat, length: nat, replacements: seq<Replacement>)

  function End(m: LtMatch): nat { m.offset + m.length }

  /** The match has a first replacement and that replacement has a value. */
  predicate HasValue(m: LtMatch) { m.replacements != [] && m.replacements[0].value.Some? }

  /** The value of the first replacement. Only matches with a value are
      ever spliced; for the others this is the empty text. */
  function Value(m: LtMatch): string
  {
    if HasValue(m) then m.replacements[0].value.value else []
  }

  // ---------------------------------------------------------------------
  // One splice

  /** Python's t[:k] for k >= 0: an index past the end takes everything. */
  function Prefix(t: string, k: nat): string { if k <= |t| then t[..k] else t }

  /** Python's t[k:] for k >= 0: an index past the end takes nothing. */
  function Suffix(t: string, k: nat): string { if k <= |t| then t[k..] else [] }

  /** t[:offset] + value + t[offset + length:] */
  function ApplyMatch(t: string, m: LtMatch): string
  {
    Prefix(t, m.offset) + Value(m) + Suffix(t, End(m))
  }

  /** A span inside the text is replaced by the value and nothing else
      changes; a match at or past the end appends the value. */
  lemma ApplyMatchSpec(t: string, m: LtMatch)
    ensures End(m) <= |t| ==>
      var r, o, v := ApplyMatch(t, m), m.offset, Value(m);
      |r| == |t| - m.length + |v| && r[..o] == t[..o] && r[o..o + |v|] == v && r[o + |v|..] == t[End(m)..]
    ensures |t| <= m.offset ==> ApplyMatch(t, m) == t + Value(m)
  {
    var r, o, v := ApplyMatch(t, m), m.offset, Value(m);
    if End(m) <= |t| {
      assert r == t[..o] + v + t[End(m)..];
    }
  }

  /** Splicing inside a prefix leaves what follows the prefix alone. */
  lemma ApplyMatchInPrefix(p: string, s: string, m: LtMatch)
    requires End(m) <= |p|
    ensures ApplyMatch(p + s, m) == ApplyMatch(p, m) + s
  {
    assert (p + s)[..m.offset] == p[..m.offset];
    assert (p + s)[End(m)..] == p[End(m)..] + s;
  }

  // ---------------------------------------------------------------------
  // The loop

  /** The splices of ms, applied one after the other in list order. */
  function ApplyAll(t: string, ms: seq<LtMatch>): string
    decreases |ms|
  {
    if ms == [] then t else ApplyAll(ApplyMatch(t, ms[0]), ms[1..])
  }

  /** Python's sorted(ms, key=offset, reverse=True) is stable: matches with
      equal offsets keep their order. Inserting m in front of the first
      element whose offset is not above m's keeps m ahead of its equals. */
  function Insert(m: LtMatch, s: seq<LtMatch>): seq<LtMatch>
  {
    if s == [] || s[0].offset <= m.offset then [m] + s else [s[0]] + Insert(m, s[1..])
  }

  /** sorted(ms, key=offset, reverse=True) */
  function SortDesc(ms: seq<LtMatch>): seq<LtMatch>
  {
    if ms == [] then [] else Insert(ms[0], SortDesc(ms[1..]))
  }

  predicate NonIncreasing(s: seq<LtMatch>)
  {
    forall i, j :: 0 <= i < j < |s| ==> s[j].offset <= s[i].offset
  }

  /** The matches of s at offset k, in their order in s. */
  function AtOffset(s: seq<LtMatch>, k: nat): (r: seq<LtMatch>)
    ensures forall i :: 0 <= i < |r| ==> r[i].offset == k
  {
    if s == [] then [] else (if s[0].offset == k then [s[0]] else []) + AtOffset(s[1..], k)
  }

  lemma {:induction false} InsertPerm(m: LtMatch, s: seq<LtMatch>)
    ensures multiset(Insert(m, s)) == multiset(s) + multiset{m}
    decreases |s|
  {
    if s != [] && s[0].offset > m.offset {
      InsertPerm(m, s[1..]);
      assert s == [s[0]] + s[1..];
    }
  }

  lemma {:induction false} InsertBound(m: LtMatch, s: seq<LtMatch>, b: nat)
    requires m.offset <= b && forall i :: 0 <= i < |s| ==> s[i].offset <= b
    ensures forall i :: 0 <= i < |Insert(m, s)| ==> Insert(m, s)[i].offset <= b
    decreases |s|
  {
    if s != [] && s[0].offset > m.offset {
      InsertBound(m, s[1..], b);
    }
  }

  lemma {:induction false} InsertSorted(m: LtMatch, s: seq<LtMatch>)
    requires NonIncreasing(s)
    ensures NonIncreasing(Insert(m, s))
    decreases |s|
  {
    if s != [] && s[0].offset > m.offset {
      var r := Insert(m, s[1..]);
      InsertSorted(m, s[1..]);
      InsertBound(m, s[1..], s[0].offset);
      var q := [s[0]] + r;
      forall i, j | 0 <= i < j < |q| ensures q[j].offset <= q[i].offset {
        assert q[j] == r[j - 1];
      }
    }
  }

  lemma {:induction false} InsertAtOffset(m: LtMatch, s: seq<LtMatch>, k: nat)
    ensures AtOffset(Insert(m, s), k) == (if m.offset == k then [m] else []) + AtOffset(s, k)
    decreases |s|
  {
    if s == [] || s[0].offset <= m.offset {
      assert ([m] + s)[1..] == s;
    } else {
      var r := Insert(m, s[1..]);
      InsertAtOffset(m, s[1..], k);
      assert ([s[0]] + r)[1..] == r;
    }
  }

  /** SortDesc is a permutation ordered by offset from the highest down. */
  lemma {:induction false} SortDescSpec(ms: seq<LtMatch>)
    ensures multiset(SortDesc(ms)) == multiset(ms)
    ensures NonIncreasing(SortDesc(ms))
  {
    if ms != [] {
      SortDescSpec(ms[1..]);
      InsertPerm(ms[0], SortDesc(ms[1..]));
      InsertSorted(ms[0], SortDesc(ms[1..]));
      assert ms == [ms[0]] + ms[1..];
    }
  }

  /** SortDesc is stable: matches sharing an offset keep their order. */
  lemma {:induction false} SortDescStable(ms: seq<LtMatch>, k: nat)
    ensures AtOffset(SortDesc(ms), k) == AtOffset(ms, k)
  {
    if ms != [] {
      SortDescStable(ms[1..], k);
      InsertAtOffset(ms[0], SortDesc(ms[1..]), k);
    }
  }

  // ---------------------------------------------------------------------
  // Which matches are applied

  /** The match is applied: it has a value, and when empty values are
      skipped, that value is not empty. */
  predicate Applies(m: LtMatch, skipEmpty: bool)
  {
    HasValue(m) && !(skipEmpty && Value(m) == [])
  }

  /** The matches that are applied, in their order. */
  function Applicable(ms: seq<LtMatch>, skipEmpty: bool): seq<LtMatch>
  {
    if ms == [] then []
    else (if Applies(ms[0], skipEmpty) then [ms[0]] else []) + Applicable(ms[1..], skipEmpty)
  }

  /** Applicable keeps exactly the matches of ms that are applied. */
  lemma {:induction false} ApplicableMembers(ms: seq<LtMatch>, skipEmpty: bool)
    ensures forall x :: x in Applicable(ms, skipEmpty) <==> x in ms && Applies(x, skipEmpty)
  {
    if ms != [] {
      ApplicableMembers(ms[1..], skipEmpty);
      assert ms == [ms[0]] + ms[1..];
    }
  }

  /** Dropping the matches that are not applied commutes with insertion
      into a sorted list. */
  lemma {:induction false} ApplicableInsert(m: LtMatch, s: seq<LtMatch>, skipEmpty: bool)
    requires NonIncreasing(s)
    ensures Applicable(Insert(m, s), skipEmpty) ==
      if Applies(m, skipEmpty) then Insert(m, Applicable(s, skipEmpty)) else Applicable(s, skipEmpty)
    decreases |s|
  {
    var a := Applicable(s, skipEmpty);
    if s == [] || s[0].offset <= m.offset {
      assert ([m] + s)[1..] == s;
      if a != [] {
        ApplicableMembers(s, skipEmpty);
        assert a[0] in a;
      }
    } else {
      ApplicableInsert(m, s[1..], skipEmpty);
      var r := Insert(m, s[1..]);
      assert ([s[0]] + r)[1..] == r;
      var a1 := Applicable(s[1..], skipEmpty);
      var h := if Applies(s[0], skipEmpty) then [s[0]] else [];
      assert Applicable(Insert(m, s), skipEmpty) == h + Applicable(r, skipEmpty);
      assert a == h + a1;
      if Applies(m, skipEmpty) {
        assert Applicable(r, skipEmpty) == Insert(m, a1);
        if Applies(s[0], skipEmpty) {
          assert h == [s[0]];
          assert a[0] == s[0] && a[1..] == a1;
          assert Insert(m, a) == [s[0]] + Insert(m, a1);
        } else {
          assert h == [] && a == a1;
        }
      }
    }
  }

  /** Sorting first and dropping the matches that are not applied gives the
      sorted applicable matches. */
  lemma {:induction false} ApplicableSortDesc(ms: seq<LtMatch>, skipEmpty: bool)
    ensures Applicable(SortDesc(ms), skipEmpty) == SortDesc(Applicable(ms, skipEmpty))
  {
    if ms != [] {
      ApplicableSortDesc(ms[1..], skipEmpty);
      SortDescSpec(ms[1..]);
      ApplicableInsert(ms[0], SortDesc(ms[1..]), skipEmpty);
      var a1 := Applicable(ms[1..], skipEmpty);
      if Applies(ms[0], skipEmpty) {
        assert Applicable(ms, skipEmpty) == [ms[0]] + a1;
        assert ([ms[0]] + a1)[1..] == a1;
        assert SortDesc([ms[0]] + a1) == Insert(ms[0], SortDesc(a1));
      } else {
        assert Applicable(ms, skipEmpty) == a1;
      }
    }
  }

  // ---------------------------------------------------------------------
  // End-to-start application against left-to-right reconstruction

  /** Two matches start at different offsets and their spans do not overlap. */
  predicate Apart(a: LtMatch, b: LtMatch)
  {
    a.offset != b.offset && (End(a) <= b.offset || End(b) <= a.offset)
  }

  predicate PairwiseApart(ms: seq<LtMatch>)
  {
    forall i, j :: 0 <= i < j < |ms| ==> Apart(ms[i], ms[j])
  }

  /** Each match lies wholly before every match in front of it. */
  predicate Descending(ms: seq<LtMatch>)
  {
    forall i, j :: 0 <= i < j < |ms| ==> End(ms[j]) <= ms[i].offset
  }

  predicate InRange(t: string, ms: seq<LtMatch>)
  {
    forall i :: 0 <= i < |ms| ==> End(ms[i]) <= |t|
  }

  lemma ConsApart(a: LtMatch, s: seq<LtMatch>)
    requires PairwiseApart(s) && forall x :: x in s ==> Apart(a, x)
    ensures PairwiseApart([a] + s)
  {
    var r := [a] + s;
    forall i, j | 0 <= i < j < |r| ensures Apart(r[i], r[j]) {
      assert r[j] == s[j - 1];
      if i > 0 {
        assert r[i] == s[i - 1];
      }
    }
  }

  lemma {:induction false} InsertApart(m: LtMatch, s: seq<LtMatch>)
    requires PairwiseApart(s) && forall x :: x in s ==> Apart(m, x)
    ensures PairwiseApart(Insert(m, s))
    decreases |s|
  {
    if s == [] || s[0].offset <= m.offset {
      ConsApart(m, s);
    } else {
      var r := Insert(m, s[1..]);
      assert PairwiseApart(s[1..]) by {
        forall i, j | 0 <= i < j < |s| - 1 ensures Apart(s[1..][i], s[1..][j]) {
          assert s[1..][i] == s[i + 1] && s[1..][j] == s[j + 1];
        }
      }
      InsertApart(m, s[1..]);
      InsertPerm(m, s[1..]);
      forall x | x in r ensures Apart(s[0], x) {
        assert x in multiset(r);
        if x == m {
          assert s[0] in s;
        } else {
          assert x in s[1..];
          var j :| 0 <= j < |s| - 1 && s[1..][j] == x;
          assert s[j + 1] == x;
        }
      }
      ConsApart(s[0], r);
    }
  }

  /** Sorting keeps the matches pairwise apart. */
  lemma {:induction false} SortDescApart(ms: seq<LtMatch>)
    requires PairwiseApart(ms)
    ensures PairwiseApart(SortDesc(ms))
  {
    if ms != [] {
      var t := ms[1..];
      assert PairwiseApart(t) by {
        forall i, j | 0 <= i < j < |t| ensures Apart(t[i], t[j]) {
          assert t[i] == ms[i + 1] && t[j] == ms[j + 1];
        }
      }
      SortDescApart(t);
      SortDescSpec(t);
      forall x | x in SortDesc(t) ensures Apart(ms[0], x) {
        assert x in multiset(SortDesc(t));
        var j :| 0 <= j < |t| && t[j] == x;
        assert x == ms[j + 1];
      }
      InsertApart(ms[0], SortDesc(t));
    }
  }

  /** Matches apart from each other, ordered by offset from the highest,
      each lie wholly before the ones ahead of them. */
  lemma SortedApartDescending(s: seq<LtMatch>)
    requires NonIncreasing(s) && PairwiseApart(s)
    ensures Descending(s)
  {
  }

  function Reverse(s: seq<LtMatch>): seq<LtMatch>
  {
    if s == [] then [] else Reverse(s[1..]) + [s[0]]
  }

  lemma {:induction false} ReverseIndex(s: seq<LtMatch>)
    ensures |Reverse(s)| == |s| && forall i :: 0 <= i < |s| ==> Reverse(s)[i] == s[|s| - 1 - i]
  {
    if s != [] {
      ReverseIndex(s[1..]);
    }
  }

  /** asc holds spans of t from pos on, in ascending order, each ending
      before the next one starts. */
  predicate Chain(t: string, asc: seq<LtMatch>, pos: nat)
  {
    pos <= |t| &&
    (forall i :: 0 <= i < |asc| ==> pos <= asc[i].offset && End(asc[i]) <= |t|) &&
    (forall i, j :: 0 <= i < j < |asc| ==> End(asc[i]) <= asc[j].offset)
  }

  /** The left-to-right reading of the corrected text: the untouched gap of t
      before each match, that match's value, and after the last match the
      rest of t. */
  function Rebuild(t: string, asc: seq<LtMatch>, pos: nat): string
    decreases |asc|
  {
    if asc == [] then Slice(t, pos, |t|)
    else Slice(t, pos, asc[0].offset) + Value(asc[0]) + Rebuild(t, asc[1..], End(asc[0]))
  }

  /** t[i..j]; only ever taken inside a chain, where i <= j <= |t|. */
  function Slice(t: string, i: nat, j: nat): string
  {
    if i <= j <= |t| then t[i..j] else []
  }

  lemma ChainSnoc(t: string, asc: seq<LtMatch>, m: LtMatch, pos: nat)
    requires End(m) <= |t| && Chain(t[..m.offset], asc, pos)
    ensures Chain(t, asc + [m], pos)
  {
    var c := asc + [m];
    assert forall i :: 0 <= i < |asc| ==> c[i] == asc[i];
    assert c[|asc|] == m;
  }

  lemma ChainTail(t: string, asc: seq<LtMatch>, pos: nat)
    requires asc != [] && Chain(t, asc, pos)
    ensures Chain(t, asc[1..], End(asc[0]))
  {
    forall i | 0 <= i < |asc| - 1 ensures End(asc[0]) <= asc[1..][i].offset {
      assert asc[1..][i] == asc[i + 1];
    }
  }

  /** The last match of the chain is read after everything before it. */
  lemma {:induction false} RebuildSnoc(t: string, asc: seq<LtMatch>, m: LtMatch, pos: nat)
    requires End(m) <= |t| && Chain(t[..m.offset], asc, pos)
    ensures Rebuild(t, asc + [m], pos) == Rebuild(t[..m.offset], asc, pos) + Value(m) + t[End(m)..]
    decreases |asc|
  {
    if asc != [] {
      ChainTail(t[..m.offset], asc, pos);
      RebuildSnoc(t, asc[1..], m, End(asc[0]));
      SnocStep(t, asc, m, pos);
    } else {
      assert Slice(t[..m.offset], pos, m.offset) == Slice(t, pos, m.offset);
    }
  }

  lemma Regroup(a: string, b: string, c: string, d: string)
    ensures a + (b + c + d) == a + b + c + d
  {
  }

  lemma Assoc<T>(a: seq<T>, b: seq<T>, c: seq<T>)
    ensures a + (b + c) == a + b + c
  {
  }

  /** One step of RebuildSnoc, given the step for the rest of the chain. */
  lemma SnocStep(t: string, asc: seq<LtMatch>, m: LtMatch, pos: nat)
    requires asc != [] && pos <= asc[0].offset <= m.offset <= End(m) <= |t|
    requires Rebuild(t, asc[1..] + [m], End(asc[0])) ==
      Rebuild(t[..m.offset], asc[1..], End(asc[0])) + Value(m) + t[End(m)..]
    ensures Rebuild(t, asc + [m], pos) == Rebuild(t[..m.offset], asc, pos) + Value(m) + t[End(m)..]
  {
    var u, a := t[..m.offset], asc[0];
    SnocUnfold(t, asc, m, pos);
    assert Slice(u, pos, a.offset) == Slice(t, pos, a.offset);
    Regroup(Slice(u, pos, a.offset) + Value(a), Rebuild(u, asc[1..], End(a)), Value(m), t[End(m)..]);
  }

  lemma SnocUnfold(t: string, asc: seq<LtMatch>, m: LtMatch, pos: nat)
    requires asc != []
    ensures Rebuild(t, asc + [m], pos) ==
      Slice(t, pos, asc[0].offset) + Value(asc[0]) + Rebuild(t, asc[1..] + [m], End(asc[0]))
  {
    var c := asc + [m];
    assert c[0] == asc[0] && c[1..] == asc[1..] + [m];
  }

  /** Applying a descending list inside a prefix leaves the rest alone. */
  lemma {:induction false} ApplyAllInPrefix(p: string, s: string, ms: seq<LtMatch>)
    requires Descending(ms) && InRange(p, ms)
    ensures ApplyAll(p + s, ms) == ApplyAll(p, ms) + s
    decreases |ms|
  {
    if ms != [] {
      var m := ms[0];
      ApplyMatchInPrefix(p, s, m);
      var p1 := ApplyMatch(p, m);
      assert ApplyMatch(p, m) == p[..m.offset] + Value(m) + p[End(m)..];
      assert InRange(p1, ms[1..]) by {
        forall i | 0 <= i < |ms| - 1 ensures End(ms[1..][i]) <= |p1| {
          assert ms[1..][i] == ms[i + 1];
        }
      }
      ApplyAllInPrefix(p1, s, ms[1..]);
    }
  }

  lemma ReverseChain(t: string, ms: seq<LtMatch>)
    requires Descending(ms) && InRange(t, ms)
    ensures Chain(t, Reverse(ms), 0)
  {
    var r := Reverse(ms);
    ReverseIndex(ms);
    forall i, j | 0 <= i < j < |r| ensures End(r[i]) <= r[j].offset {
      assert r[i] == ms[|ms| - 1 - i] && r[j] == ms[|ms| - 1 - j];
    }
  }

  lemma DescendingTail(t: string, ms: seq<LtMatch>)
    requires ms != [] && Descending(ms) && InRange(t, ms)
    ensures Descending(ms[1..]) && InRange(t[..ms[0].offset], ms[1..])
  {
    var rest := ms[1..];
    forall i | 0 <= i < |rest| ensures End(rest[i]) <= ms[0].offset {
      assert rest[i] == ms[i + 1];
    }
    forall i, j | 0 <= i < j < |rest| ensures End(rest[j]) <= rest[i].offset {
      assert rest[i] == ms[i + 1] && rest[j] == ms[j + 1];
    }
  }

  /** Applying non-overlapping, in-range matches from the highest offset to
      the lowest gives the left-to-right reconstruction at their original
      offsets, and those offsets, read in reverse, form a chain. */
  lemma DescendingIsRebuild(t: string, ms: seq<LtMatch>)
    requires Descending(ms) && InRange(t, ms)
    ensures Chain(t, Reverse(ms), 0)
    ensures ApplyAll(t, ms) == Rebuild(t, Reverse(ms), 0)
  {
    ReverseChain(t, ms);
    ApplyAllIsRebuild(t, ms);
  }

  lemma {:induction false} ApplyAllIsRebuild(t: string, ms: seq<LtMatch>)
    requires Descending(ms) && InRange(t, ms)
    ensures ApplyAll(t, ms) == Rebuild(t, Reverse(ms), 0)
    decreases |ms|
  {
    if ms != [] {
      DescendingTail(t, ms);
      ApplyAllIsRebuild(t[..ms[0].offset], ms[1..]);
      ApplyHead(t, ms);
      RebuildHead(t, ms);
    }
  }

  /** The first (highest) splice is carried past all later ones. */
  lemma ApplyHead(t: string, ms: seq<LtMatch>)
    requires ms != [] && Descending(ms) && InRange(t, ms)
    ensures ApplyAll(t, ms) == ApplyAll(t[..ms[0].offset], ms[1..]) + (Value(ms[0]) + t[End(ms[0])..])
  {
    var m := ms[0];
    var u, tail := t[..m.offset], Value(m) + t[End(m)..];
    DescendingTail(t, ms);
    ApplyAllInPrefix(u, tail, ms[1..]);
    assert ApplyMatch(t, m) == u + tail;
  }

  /** The first (highest) match is the last one the reconstruction reads. */
  lemma RebuildHead(t: string, ms: seq<LtMatch>)
    requires ms != [] && Descending(ms) && InRange(t, ms)
    ensures Rebuild(t, Reverse(ms), 0) == Rebuild(t[..ms[0].offset], Reverse(ms[1..]), 0) + (Value(ms[0]) + t[End(ms[0])..])
  {
    var m := ms[0];
    DescendingTail(t, ms);
    ReverseChain(t[..m.offset], ms[1..]);
    RebuildSnoc(t, Reverse(ms[1..]), m, 0);
  }

  // ---------------------------------------------------------------------
  // Facts the two clients share

  /** One turn of the loop: the match at i is spliced when it is applied. */
  lemma ApplicableStep(s: seq<LtMatch>, i: nat, skipEmpty: bool, t: string)
    requires i < |s|
    ensures ApplyAll(t, Applicable(s[i..], skipEmpty)) ==
      if Applies(s[i], skipEmpty) then ApplyAll(ApplyMatch(t, s[i]), Applicable(s[i + 1..], skipEmpty))
      else ApplyAll(t, Applicable(s[i + 1..], skipEmpty))
  {
    assert s[i..][0] == s[i] && s[i..][1..] == s[i + 1..];
    var r := Applicable(s[i + 1..], skipEmpty);
    if Applies(s[i], skipEmpty) {
      assert Applicable(s[i..], skipEmpty) == [s[i]] + r;
      assert ([s[i]] + r)[0] == s[i] && ([s[i]] + r)[1..] == r;
    } else {
      assert Applicable(s[i..], skipEmpty) == r;
    }
  }

  lemma {:induction false} ApplicableConcat(a: seq<LtMatch>, b: seq<LtMatch>, skipEmpty: bool)
    ensures Applicable(a + b, skipEmpty) == Applicable(a, skipEmpty) + Applicable(b, skipEmpty)
  {
    if a != [] {
      ApplicableConcat(a[1..], b, skipEmpty);
      assert (a + b)[0] == a[0] && (a + b)[1..] == a[1..] + b;
      var r := Applicable(a[1..], skipEmpty);
      if Applies(a[0], skipEmpty) {
        assert Applicable(a + b, skipEmpty) == [a[0]] + (r + Applicable(b, skipEmpty));
        Assoc([a[0]], r, Applicable(b, skipEmpty));
      } else {
        assert Applicable(a + b, skipEmpty) == r + Applicable(b, skipEmpty);
      }
    } else {
      assert a + b == b;
    }
  }

  /** A match that is not applied can be dropped from the service's list
      without changing what is applied. */
  lemma InapplicableDropped(ms: seq<LtMatch>, i: nat, skipEmpty: bool)
    requires i < |ms| && !Applies(ms[i], skipEmpty)
    ensures Applicable(SortDesc(ms), skipEmpty) == Applicable(SortDesc(ms[..i] + ms[i + 1..]), skipEmpty)
  {
    ApplicableSortDesc(ms, skipEmpty);
    ApplicableSortDesc(ms[..i] + ms[i + 1..], skipEmpty);
    ApplicableWithout(ms, i, skipEmpty);
  }

  lemma ApplicableWithout(ms: seq<LtMatch>, i: nat, skipEmpty: bool)
    requires i < |ms| && !Applies(ms[i], skipEmpty)
    ensures Applicable(ms, skipEmpty) == Applicable(ms[..i] + ms[i + 1..], skipEmpty)
  {
    var p, q := ms[..i], ms[i + 1..];
    assert ms == (p + [ms[i]]) + q;
    ApplicableConcat(p + [ms[i]], q, skipEmpty);
    ApplicableConcat(p, [ms[i]], skipEmpty);
    ApplicableConcat(p, q, skipEmpty);
    assert Applicable([ms[i]], skipEmpty) == [];
    assert Applicable(p + [ms[i]], skipEmpty) == Applicable(p, skipEmpty);
  }

  /** With nothing applicable in the service's list, the text is kept. */
  lemma NothingApplicable(t: string, ms: seq<LtMatch>, skipEmpty: bool)
    requires forall i :: 0 <= i < |ms| ==> !Applies(ms[i], skipEmpty)
    ensures ApplyAll(t, Applicable(SortDesc(ms), skipEmpty)) == t
  {
    ApplicableSortDesc(ms, skipEmpty);
    ApplicableNone(ms, skipEmpty);
  }

  lemma {:induction false} ApplicableNone(ms: seq<LtMatch>, skipEmpty: bool)
    requires forall i :: 0 <= i < |ms| ==> !Applies(ms[i], skipEmpty)
    ensures Applicable(ms, skipEmpty) == []
  {
    if ms != [] {
      ApplicableNone(ms[1..], skipEmpty);
    }

  }

  lemma {:induction false} ReverseMultiset(s: seq<LtMatch>)
    ensures multiset(Reverse(s)) == multiset(s)
  {
    if s != [] {
      ReverseMultiset(s[1..]);
      assert s == [s[0]] + s[1..];
    }
  }

  /** The loop of both clients, for applicable matches that are apart and
      inside the text: the sorted application is the left-to-right
      reconstruction over the same matches in ascending order. */
  lemma SortedIsRebuild(t: string, a: seq<LtMatch>)
    requires PairwiseApart(a) && InRange(t, a)
    ensures var asc := Reverse(SortDesc(a));
      multiset(asc) == multiset(a) && Chain(t, asc, 0) && ApplyAll(t, SortDesc(a)) == Rebuild(t, asc, 0)
  {
    var d := SortDesc(a);
    SortDescSpec(a);
    SortDescApart(a);
    SortedApartDescending(d);
    forall i | 0 <= i < |d| ensures End(d[i]) <= |t| {
      assert d[i] in multiset(a);
    }
    DescendingIsRebuild(t, d);
    ReverseMultiset(d);
  }
}
