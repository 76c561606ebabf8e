/**
  What the three amount patterns denote, and proofs that the hand-written matchers return
  the match Java's matcher returns.

  For a pattern tried at a fixed start, Java's backtracking returns the first success in
  priority order: earlier alternatives first, and for each greedy quantifier the larger
  counts first. For these three patterns every member of the language at a given start
  puts the number group at the same place, and the members differ only in how many
  fraction digits they take; greedy `[0-9]{1,2}` with nothing after it takes the most.
  So the match Java returns is the LONGEST member of the language at that start.
 */
module AmountLanguage {
  import opened Chars
  import opened Spans
  import opened Numbers
  import opened Patterns
  import opened Wrappers

  // ---------------------------------------------------------------------------
  // Currency markers

  /** `s[i..m]` is one of `A$`, `AU$`, `$`, `₹`, `€`, `£`, `¥`, or `AUD` followed by whitespace. */
  ghost predicate IsCurrencyMarker(s: string, i: nat, m: nat) {
    i <= m <= |s| &&
    ((exists k :: 0 <= k < |PrefixSymbols| && HasAt(s, i, PrefixSymbols[k]) && m == i + |PrefixSymbols[k]|)
     || (HasAt(s, i, "AUD") && i + 3 <= m && AllIn(Spaces, s, i + 3, m)))
  }

  /** `s[i..e]` is in AMOUNT_PREFIX's language, with group 1 at `s[j..e]`. */
  ghost predicate IsPrefixAmount(s: string, i: nat, j: nat, e: nat) {
    i <= j <= e <= |s| &&
    (exists m :: i <= m <= j && IsCurrencyMarker(s, i, m) && AllIn(Spaces, s, m, j)) &&
    IsAmountNumber(s, j, e)
  }

  /** Two words disagree somewhere in their common length, so they cannot occur at one place. */
  predicate Clash(x: string, y: string) {
    exists k :: 0 <= k < |x| && k < |y| && x[k] != y[k]
  }

  /** The markers of AMOUNT_PREFIX pairwise clash, so at most one occurs at any position. */
  lemma MarkersClash()
    ensures forall a, b :: 0 <= a < |PrefixSymbols| && 0 <= b < |PrefixSymbols| && a != b ==>
      Clash(PrefixSymbols[a], PrefixSymbols[b])
    ensures forall a :: 0 <= a < |PrefixSymbols| ==> Clash(PrefixSymbols[a], "AUD")
  {
    var all := PrefixSymbols + ["AUD"];
    forall a, b | 0 <= a < |all| && 0 <= b < |all| && a != b
      ensures Clash(all[a], all[b])
    {
      var x, y := all[a], all[b];
      if x[0] != y[0] {
        assert Clash(x, y) by { assert x[0] != y[0]; }
      } else if x[1] != y[1] {
        assert Clash(x, y) by { assert x[1] != y[1]; }
      } else {
        assert x[2] != y[2];
      }
    }
    assert forall a :: 0 <= a < |PrefixSymbols| ==> all[a] == PrefixSymbols[a];
    assert all[|PrefixSymbols|] == "AUD";
  }

  lemma ClashingWordsExclude(s: string, i: nat, x: string, y: string)
    requires Clash(x, y) && HasAt(s, i, x)
    ensures !HasAt(s, i, y)
  {
    var k :| 0 <= k < |x| && k < |y| && x[k] != y[k];
    assert s[i + k] == x[k];
  }

  /** The marker the matcher sees at `i` is the only one there. */
  lemma MarkerIsUnique(s: string, i: nat, m: nat)
    requires i <= |s| && IsCurrencyMarker(s, i, m)
    ensures MarkerEnd(s, i).Some?
    ensures var m0 := MarkerEnd(s, i).value;
      m == m0 || (HasAt(s, i, "AUD") && m0 == i + 3 + Run(Spaces, s, i + 3) && i + 3 <= m <= m0 &&
        AllIn(Spaces, s, i + 3, m))
  {
    MarkersClash();
    if a :| 0 <= a < |PrefixSymbols| && HasAt(s, i, PrefixSymbols[a]) && m == i + |PrefixSymbols[a]| {
      SymbolEndIsSymbol(s, i, PrefixSymbols);
      var r := SymbolEnd(s, i, PrefixSymbols);
      assert r.Some?;
      var b :| 0 <= b < |PrefixSymbols| && HasAt(s, i, PrefixSymbols[b]) && r.value == i + |PrefixSymbols[b]|;
      if a != b {
        ClashingWordsExclude(s, i, PrefixSymbols[a], PrefixSymbols[b]);
      }
    } else {
      assert HasAt(s, i, "AUD") && i + 3 <= m && AllIn(Spaces, s, i + 3, m);
      SymbolEndIsSymbol(s, i, PrefixSymbols);
      forall a | 0 <= a < |PrefixSymbols|
        ensures !HasAt(s, i, PrefixSymbols[a])
      {
        if HasAt(s, i, PrefixSymbols[a]) {
          ClashingWordsExclude(s, i, PrefixSymbols[a], "AUD");
        }
      }
      RunIsLongest(Spaces, s, i + 3, m);
    }
  }

  /** Every member of the number language starts with a digit. */
  lemma NumberStartsWithDigit(s: string, j: nat, e: nat)
    requires j <= e <= |s| && IsAmountNumber(s, j, e)
    ensures j < |s| && IsDigit(s[j])
  {
    var k: nat :| IsDecimalSplit(s, j, k, e);
    if IsGroupedInteger(s, j, k) {
      GroupedIntegerIsGreedy(s, j, k);
    }
  }

  /** The first chars of the currency markers. */
  predicate IsMarkerHead(c: char) {
    c == 'A' || c == '$' || c == '₹' || c == '€' || c == '£' || c == '¥'
  }

  /** `t` holds no char a currency marker can start with. */
  predicate MarkerFree(t: string) {
    forall k :: 0 <= k < |t| ==> !IsMarkerHead(t[k])
  }

  /**
    No char in `s[a..b]` can start a currency marker. The recursive form unrolls one char at
    a time, so a proof over a long text only looks at the chars it needs.
   */
  predicate MarkerFreeIn(s: string, a: nat, b: nat)
    requires a <= b <= |s|
    decreases b - a
  {
    a == b || (!IsMarkerHead(s[a]) && MarkerFreeIn(s, a + 1, b))
  }

  lemma {:induction false} MarkerFreeInMeans(s: string, a: nat, b: nat)
    requires a <= b <= |s|
    ensures MarkerFreeIn(s, a, b) <==> forall k :: a <= k < b ==> !IsMarkerHead(s[k])
    decreases b - a
  {
    if a < b {
      MarkerFreeInMeans(s, a + 1, b);
    }
  }

  /** A char range of `p` keeps its marker-freedom when text is appended after `p`. */
  lemma {:induction false} MarkerFreeInPrefix(p: string, q: string, a: nat, b: nat)
    requires a <= b <= |p|
    ensures MarkerFreeIn(p + q, a, b) <==> MarkerFreeIn(p, a, b)
    decreases b - a
  {
    if a < b {
      assert (p + q)[a] == p[a];
      MarkerFreeInPrefix(p, q, a + 1, b);
    }
  }

  /** A char range of `w` keeps its marker-freedom when text is put in front of `w`. */
  lemma {:induction false} MarkerFreeInShift(p: string, w: string, a: nat, b: nat)
    requires a <= b <= |w|
    ensures MarkerFreeIn(p + w, |p| + a, |p| + b) <==> MarkerFreeIn(w, a, b)
    decreases b - a
  {
    if a < b {
      assert (p + w)[|p| + a] == w[a];
      MarkerFreeInShift(p, w, a + 1, b);
    }
  }

  /** Every currency marker starts with `A`, `$`, `₹`, `€`, `£` or `¥`. */
  lemma MarkerStartsWithHead(s: string, i: nat, m: nat)
    requires IsCurrencyMarker(s, i, m)
    ensures i < |s| && IsMarkerHead(s[i])
  {
    if a :| 0 <= a < |PrefixSymbols| && HasAt(s, i, PrefixSymbols[a]) && m == i + |PrefixSymbols[a]| {
      HasAtHead(s, i, PrefixSymbols[a]);
      assert IsMarkerHead(PrefixSymbols[a][0]);
    } else {
      HasAtHead(s, i, "AUD");
    }
  }

  /** The marker the matcher takes is a marker of the language. */
  lemma MarkerEndIsMarker(s: string, i: nat)
    requires i <= |s|
    ensures MarkerEnd(s, i).Some? ==> IsCurrencyMarker(s, i, MarkerEnd(s, i).value)
  {
    SymbolEndIsSymbol(s, i, PrefixSymbols);
    if SymbolEnd(s, i, PrefixSymbols).None? && HasAt(s, i, "AUD") {
      assert AllIn(Spaces, s, i + 3, i + 3 + Run(Spaces, s, i + 3));
    }
  }

  /** A marker, blanks and a number make a member of AMOUNT_PREFIX's language. */
  lemma PrefixAmountIntro(s: string, i: nat, m: nat, j: nat, e: nat)
    requires i <= m <= j <= e <= |s| && IsCurrencyMarker(s, i, m) && AllIn(Spaces, s, m, j)
    requires IsAmountNumber(s, j, e)
    ensures IsPrefixAmount(s, i, j, e)
  {
  }

  /** What the AMOUNT_PREFIX matcher returns at `i` is in the language, group included. */
  lemma PrefixAtIsMember(s: string, i: nat)
    requires i <= |s|
    ensures PrefixAt(s, i).Some? ==>
      var m := PrefixAt(s, i).value;
      m.end == m.groupEnd && IsPrefixAmount(s, i, m.groupStart, m.groupEnd)
  {
    PrefixAtHasParts(s, i);
    if PrefixAt(s, i).Some? {
      var m0: nat, e: nat :| PrefixParts(s, i, m0, e);
      PrefixPartsAreMember(s, i, m0, e);
    }
  }

  /** The matcher took the marker `s[i..m0]` and then found a number ending at `e` after the blanks. */
  predicate PrefixParts(s: string, i: nat, m0: nat, e: nat) {
    i <= |s| && MarkerEnd(s, i) == Some(m0) && NumberEnd(s, m0 + Run(Spaces, s, m0)) == Some(e)
  }

  /** A marker the matcher takes and the number after its blanks make a member. */
  lemma PrefixPartsAreMember(s: string, i: nat, m0: nat, e: nat)
    requires PrefixParts(s, i, m0, e)
    ensures PrefixAt(s, i) == Some(Match(i, m0 + Run(Spaces, s, m0), e, e))
    ensures IsPrefixAmount(s, i, PrefixAt(s, i).value.groupStart, PrefixAt(s, i).value.groupEnd)
  {
    var j := m0 + Run(Spaces, s, m0);
    PrefixAtFromParts(s, i, m0, e);
    assert PrefixAt(s, i).value.groupStart == j && PrefixAt(s, i).value.groupEnd == e;
    MarkerEndIsMarker(s, i);
    NumberEndIsMember(s, j);
    PrefixAmountIntro(s, i, m0, j, e);
  }

  /** The AMOUNT_PREFIX matcher matches only after a marker, with a number after its blanks. */
  lemma PrefixAtHasParts(s: string, i: nat)
    requires i <= |s|
    ensures PrefixAt(s, i).Some? ==> exists m0: nat, e: nat :: PrefixParts(s, i, m0, e)
  {
    var mk := MarkerEnd(s, i);
    if mk.Some? {
      var m0 := mk.value;
      PrefixAtAfterMarker(s, i, m0);
      var ne := NumberEnd(s, m0 + Run(Spaces, s, m0));
      if ne.Some? {
        assert PrefixParts(s, i, m0, ne.value);
      } else {
        NumberAfterMarkerNone(s, i, m0);
      }
    } else {
      PrefixAtWithoutMarker(s, i);
    }
  }

  lemma PrefixAtWithoutMarker(s: string, i: nat)
    requires i <= |s| && MarkerEnd(s, i).None?
    ensures PrefixAt(s, i).None?
  {
  }

  lemma NumberAfterMarkerNone(s: string, i: nat, m0: nat)
    requires i <= m0 <= |s| && NumberEnd(s, m0 + Run(Spaces, s, m0)).None?
    ensures NumberAfterMarker(s, i, m0).None?
  {
  }

  /** A member's number group starts where the matcher's does: after the marker and all blanks. */
  lemma PrefixGroupStart(s: string, i: nat, m: nat, j: nat)
    requires i <= m <= j < |s| && IsCurrencyMarker(s, i, m) && AllIn(Spaces, s, m, j)
    requires IsDigit(s[j])
    ensures MarkerEnd(s, i).Some?
    ensures j == MarkerEnd(s, i).value + Run(Spaces, s, MarkerEnd(s, i).value)
  {
    MarkerIsUnique(s, i, m);
    var m0 := MarkerEnd(s, i).value;
    if m != m0 {
      assert AllIn(Spaces, s, i + 3, j);
      RunIsLongest(Spaces, s, i + 3, j);
      assert j == m0;
    }
    RunIsLongest(Spaces, s, m0, j);
  }

  /** Every member of AMOUNT_PREFIX's language at `i` has the matcher's group start, and none is longer. */
  lemma PrefixAtCoversMember(s: string, i: nat, j: nat, e: nat)
    requires i <= |s| && IsPrefixAmount(s, i, j, e)
    ensures PrefixAt(s, i).Some? && j == PrefixAt(s, i).value.groupStart && e <= PrefixAt(s, i).value.groupEnd
  {
    PrefixAmountStart(s, i, j, e);
    NumberEndCoversMember(s, j, e);
    PrefixAtFromParts(s, i, MarkerEnd(s, i).value, NumberEnd(s, j).value);
  }

  /** A member's number group starts where the matcher looks for the number. */
  lemma PrefixAmountStart(s: string, i: nat, j: nat, e: nat)
    requires IsPrefixAmount(s, i, j, e)
    ensures MarkerEnd(s, i).Some?
    ensures j == MarkerEnd(s, i).value + Run(Spaces, s, MarkerEnd(s, i).value)
  {
    var m :| i <= m <= j && IsCurrencyMarker(s, i, m) && AllIn(Spaces, s, m, j);
    NumberStartsWithDigit(s, j, e);
    PrefixGroupStart(s, i, m, j);
  }

  /** The AMOUNT_PREFIX matcher once the marker at `i` and the number after its blanks are known. */
  lemma PrefixAtFromParts(s: string, i: nat, m0: nat, e: nat)
    requires i <= |s| && MarkerEnd(s, i) == Some(m0)
    requires NumberEnd(s, m0 + Run(Spaces, s, m0)) == Some(e)
    ensures PrefixAt(s, i) == Some(Match(i, m0 + Run(Spaces, s, m0), e, e))
  {
    PrefixAtAfterMarker(s, i, m0);
    NumberAfterMarkerFound(s, i, m0, e);
  }

  lemma PrefixAtAfterMarker(s: string, i: nat, m0: nat)
    requires i <= |s| && MarkerEnd(s, i) == Some(m0)
    ensures PrefixAt(s, i) == NumberAfterMarker(s, i, m0)
  {
  }

  lemma NumberAfterMarkerFound(s: string, i: nat, m0: nat, e: nat)
    requires i <= m0 <= |s|
    requires NumberEnd(s, m0 + Run(Spaces, s, m0)) == Some(e)
    ensures NumberAfterMarker(s, i, m0) == Some(Match(i, m0 + Run(Spaces, s, m0), e, e))
  {
  }

  /** Java's match for AMOUNT_PREFIX at `i`: the longest member of the language. */
  lemma PrefixAtIsJavaMatch(s: string, i: nat)
    requires i <= |s|
    ensures PrefixAt(s, i).Some? ==>
      var m := PrefixAt(s, i).value;
      m.end == m.groupEnd && IsPrefixAmount(s, i, m.groupStart, m.groupEnd)
    ensures forall j: nat, e: nat :: IsPrefixAmount(s, i, j, e) ==>
      PrefixAt(s, i).Some? && j == PrefixAt(s, i).value.groupStart && e <= PrefixAt(s, i).value.groupEnd
  {
    PrefixAtIsMember(s, i);
    forall j: nat, e: nat | IsPrefixAmount(s, i, j, e)
      ensures PrefixAt(s, i).Some? && j == PrefixAt(s, i).value.groupStart && e <= PrefixAt(s, i).value.groupEnd
    {
      PrefixAtCoversMember(s, i, j, e);
    }
  }

  // ---------------------------------------------------------------------------
  // Currency codes after the number

  /** `s[i..t]` is in AMOUNT_SUFFIX's language, with group 1 at `s[i..e]`. */
  ghost predicate IsSuffixAmount(s: string, i: nat, e: nat, t: nat) {
    i <= e && e + 3 <= t <= |s| &&
    IsAmountNumber(s, i, e) && AllIn(Spaces, s, e, t - 3) && IsCodeAt(s, t - 3) && IsWordBoundary(s, t)
  }

  /** Every currency code starts with an upper-case ASCII letter. */
  lemma CodeStartsWithLetter(s: string, m: nat)
    requires IsCodeAt(s, m)
    ensures IsUpper(s[m]) && !IsDigit(s[m]) && !IsSpace(s[m])
  {
    var c := s[m..m + 3];
    assert s[m] == c[0];
    IsOneOfIff(c, CurrencyCodes);
    var a :| 0 <= a < |CurrencyCodes| && CurrencyCodes[a] == c;
  }

  /** What the AMOUNT_SUFFIX matcher returns at `i` is in the language. */
  lemma SuffixAtIsMember(s: string, i: nat)
    requires i <= |s|
    ensures SuffixAt(s, i).Some? ==>
      var m := SuffixAt(s, i).value;
      m.groupStart == i && IsSuffixAmount(s, i, m.groupEnd, m.end)
  {
    if SuffixAt(s, i).Some? {
      SuffixAtHasNumber(s, i);
      var e := NumberEnd(s, i).value;
      SuffixAtAfterNumber(s, i, e);
      CodeAfterNumberIsCode(s, i, e);
      NumberEndIsMember(s, i);
      SuffixAmountIntro(s, i, e, SuffixAt(s, i).value.groupEnd, SuffixAt(s, i).value.end);
    }
  }

  lemma SuffixAtHasNumber(s: string, i: nat)
    requires i <= |s| && SuffixAt(s, i).Some?
    ensures NumberEnd(s, i).Some?
  {
  }

  lemma SuffixAtAfterNumber(s: string, i: nat, e: nat)
    requires i <= |s| && NumberEnd(s, i) == Some(e)
    ensures SuffixAt(s, i) == CodeAfterNumber(s, i, e)
  {
  }

  lemma CodeAfterNumberIsCode(s: string, i: nat, e: nat)
    requires i <= e <= |s| && CodeAfterNumber(s, i, e).Some?
    ensures && IsCodeAt(s, e + Run(Spaces, s, e)) && IsWordBoundary(s, e + Run(Spaces, s, e) + 3)
            && CodeAfterNumber(s, i, e) == Some(Match(i, i, e, e + Run(Spaces, s, e) + 3))
  {
  }

  lemma SuffixAmountIntro(s: string, i: nat, e: nat, g: nat, t: nat)
    requires i <= e <= |s| && IsAmountNumber(s, i, e)
    requires IsCodeAt(s, e + Run(Spaces, s, e)) && IsWordBoundary(s, e + Run(Spaces, s, e) + 3)
    requires g == e && t == e + Run(Spaces, s, e) + 3
    ensures IsSuffixAmount(s, i, g, t)
  {
  }

  /** A member of AMOUNT_SUFFIX's language at `i` is the match the matcher returns. */
  lemma SuffixAtFindsMember(s: string, i: nat, e: nat, t: nat)
    requires i <= |s| && IsSuffixAmount(s, i, e, t)
    ensures SuffixAt(s, i) == Some(Match(i, i, e, t))
  {
    var m := t - 3;
    CodeStartsWithLetter(s, m);
    RunIsLongest(Spaces, s, e, m);
    CodeAfterNumberFound(s, i, e, t);
    SpacedCodeStopsNumber(s, e, m);
    NumberEndCoversMember(s, i, e);
    SuffixAtAfterNumber(s, i, e);
  }

  lemma CodeAfterNumberFound(s: string, i: nat, e: nat, t: nat)
    requires i <= e && e + 3 <= t <= |s|
    requires t - 3 == e + Run(Spaces, s, e) && IsCodeAt(s, t - 3) && IsWordBoundary(s, t)
    ensures CodeAfterNumber(s, i, e) == Some(Match(i, i, e, t))
  {
  }

  /** Blanks followed by a currency code do not start with a digit. */
  lemma SpacedCodeStopsNumber(s: string, e: nat, m: nat)
    requires e <= m && IsCodeAt(s, m) && AllIn(Spaces, s, e, m)
    ensures e < |s| && !IsDigit(s[e])
  {
    CodeStartsWithLetter(s, m);
    if e < m {
      assert IsSpace(s[e]);
    }
  }

  /** Java's match for AMOUNT_SUFFIX at `i`: the language has at most one member there, and the matcher finds it. */
  lemma SuffixAtIsJavaMatch(s: string, i: nat)
    requires i <= |s|
    ensures SuffixAt(s, i).Some? ==>
      var m := SuffixAt(s, i).value;
      m.groupStart == i && IsSuffixAmount(s, i, m.groupEnd, m.end)
    ensures forall e: nat, t: nat :: IsSuffixAmount(s, i, e, t) ==> SuffixAt(s, i) == Some(Match(i, i, e, t))
  {
    SuffixAtIsMember(s, i);
    forall e: nat, t: nat | IsSuffixAmount(s, i, e, t)
      ensures SuffixAt(s, i) == Some(Match(i, i, e, t))
    {
      SuffixAtFindsMember(s, i, e, t);
    }
  }

  // ---------------------------------------------------------------------------
  // The legacy pattern

  /** `s[i..j]` is in `(?:AUD\s*)?\$?\s*`, split as `s[i..a]`, `s[a..b]`, `s[b..j]`. */
  ghost predicate IsLegacyLead(s: string, i: nat, a: nat, b: nat, j: nat) {
    i <= a <= b <= j <= |s| &&
    (a == i || (HasAt(s, i, "AUD") && i + 3 <= a && AllIn(Spaces, s, i + 3, a))) &&
    (b == a || (b == a + 1 && s[a] == '$')) &&
    AllIn(Spaces, s, b, j)
  }

  /** `s[i..e]` is in AMOUNT_PATTERN's language, with group 1 at `s[j..e]`. */
  ghost predicate IsLegacyAmount(s: string, i: nat, j: nat, e: nat) {
    i <= j <= e <= |s| && (exists a, b :: IsLegacyLead(s, i, a, b, j)) && IsLegacyNumber(s, j, e)
  }

  /** The optional lead holds no digit. */
  lemma LeadHasNoDigit(s: string, i: nat, a: nat, b: nat, j: nat)
    requires IsLegacyLead(s, i, a, b, j)
    ensures forall k :: i <= k < j ==> !IsDigit(s[k])
  {
    if a != i {
      var w := "AUD";
      assert s[i + 0] == w[0] && s[i + 1] == w[1] && s[i + 2] == w[2];
    }
  }

  /** The lead the legacy matcher takes is a lead of the language. */
  lemma GreedyLeadIsLead(s: string, i: nat)
    requires i <= |s|
    ensures var a := LegacyCodeEnd(s, i);
      var b := if a < |s| && s[a] == '$' then a + 1 else a;
      IsLegacyLead(s, i, a, b, LegacyGroupStart(s, i))
  {
    var a := LegacyCodeEnd(s, i);
    var b := if a < |s| && s[a] == '$' then a + 1 else a;
    assert AllIn(Spaces, s, b, b + Run(Spaces, s, b));
    if HasAt(s, i, "AUD") {
      assert AllIn(Spaces, s, i + 3, i + 3 + Run(Spaces, s, i + 3));
    }
  }

  /** The greedy lead ends at the first char it cannot take. */
  lemma GreedyLeadReachesDigit(s: string, i: nat, a: nat, b: nat, j: nat)
    requires IsLegacyLead(s, i, a, b, j) && j < |s| && IsDigit(s[j])
    ensures j == LegacyGroupStart(s, i)
  {
    var a0 := LegacyCodeEnd(s, i);
    LeadHasNoDigit(s, i, a, b, j);
    if HasAt(s, i, "AUD") {
      HasAtHead(s, i, "AUD");
      if a == i {
        assert false;
      }
      RunIsLongest(Spaces, s, i + 3, a);
      if a < a0 {
        assert IsSpace(s[a]) && b == a;
        assert AllIn(Spaces, s, i + 3, j);
        RunIsLongest(Spaces, s, i + 3, j);
      }
    }
    assert a == a0 || j == a0;
    if a == a0 {
      if b == a && a0 < |s| && s[a0] == '$' {
        assert false;
      }
      RunIsLongest(Spaces, s, b, j);
    }
  }

  /** What the legacy matcher returns at `i` is in the language, and its group starts at the first digit. */
  lemma LegacyAtIsMember(s: string, i: nat)
    requires i <= |s|
    ensures LegacyAt(s, i).Some? ==>
      var m := LegacyAt(s, i).value;
      m.end == m.groupEnd && IsLegacyAmount(s, i, m.groupStart, m.groupEnd) &&
      m.groupStart < |s| && IsDigit(s[m.groupStart]) &&
      forall k :: i <= k < m.groupStart ==> !IsDigit(s[k])
  {
    var a0 := LegacyCodeEnd(s, i);
    var b0 := if a0 < |s| && s[a0] == '$' then a0 + 1 else a0;
    var j0 := LegacyGroupStart(s, i);
    GreedyLeadIsLead(s, i);
    LegacyNumberEndIsLongest(s, j0);
    LeadHasNoDigit(s, i, a0, b0, j0);
    if LegacyAt(s, i).Some? {
      var e := LegacyNumberEnd(s, j0).value;
      assert LegacyAt(s, i) == Some(Match(i, j0, e, e));
      assert IsLegacyAmount(s, i, j0, e);
    }
  }

  /** Every member of the legacy language at `i` has the matcher's group start, and none is longer. */
  lemma LegacyAtCoversMember(s: string, i: nat, j: nat, e: nat)
    requires i <= |s| && IsLegacyAmount(s, i, j, e)
    ensures LegacyAt(s, i).Some? && j == LegacyAt(s, i).value.groupStart && e <= LegacyAt(s, i).value.groupEnd
  {
    var a, b :| IsLegacyLead(s, i, a, b, j);
    if IsAmountNumber(s, j, e) {
      NumberStartsWithDigit(s, j, e);
    }
    GreedyLeadReachesDigit(s, i, a, b, j);
    LegacyNumberEndIsLongest(s, j);
    var e0 := LegacyNumberEnd(s, j).value;
    assert LegacyAt(s, i) == Some(Match(i, j, e0, e0));
  }

  /**
    Java's match for AMOUNT_PATTERN at `i`: the longest member of the language. Its group
    starts at the first digit at or after `i`, and a match exists exactly when the chars
    before that digit form the optional lead.
   */
  lemma LegacyAtIsJavaMatch(s: string, i: nat)
    requires i <= |s|
    ensures LegacyAt(s, i).Some? ==>
      var m := LegacyAt(s, i).value;
      m.end == m.groupEnd && IsLegacyAmount(s, i, m.groupStart, m.groupEnd) &&
      m.groupStart < |s| && IsDigit(s[m.groupStart]) &&
      forall k :: i <= k < m.groupStart ==> !IsDigit(s[k])
    ensures forall j: nat, e: nat :: IsLegacyAmount(s, i, j, e) ==>
      LegacyAt(s, i).Some? && j == LegacyAt(s, i).value.groupStart && e <= LegacyAt(s, i).value.groupEnd
  {
    LegacyAtIsMember(s, i);
    forall j: nat, e: nat | IsLegacyAmount(s, i, j, e)
      ensures LegacyAt(s, i).Some? && j == LegacyAt(s, i).value.groupStart && e <= LegacyAt(s, i).value.groupEnd
    {
      LegacyAtCoversMember(s, i, j, e);
    }
  }
}
