/**
  `parseAmount`: the first currency amount in a notification's content, in minor units.

  The current revision searches for an amount with a currency marker in front and, only
  when there is none, for one with a currency code behind; a number with neither is never
  an amount. The legacy revision searches with one pattern whose marker parts are all
  optional, so its amount starts at the first digit of the content.
 */
module Amounts {
  import opened Chars
  import opened Spans
  import opened Numbers
  import opened Decimals
  import opened Patterns
  import opened AmountLanguage
  import opened Config
  import opened Wrappers

  /** `Double.parseDouble(s[a..b].replace(",", ""))` in cents, or `None` where it would throw `NumberFormatException`. */
  function ParseGroup(s: string, a: nat, b: nat): (r: Option<nat>)
    requires a <= b <= |s|
  {
    var t := RemoveCommas(s[a..b]);
    if IsPlainDecimal(t) then Some(DecimalCents(t)) else None
  }

  /** Parses group 1 of the match `find()` returned, if it returned one. */
  function ParseFound(s: string, m: Option<Match>): Option<nat>
    requires m.Some? ==> WellFormed(m.value, s)
  {
    match m
    case None => None
    case Some(x) => ParseGroup(s, x.groupStart, x.groupEnd)
  }

  /** `parseAmount(content)`, with the amount in cents: `Math.round(amount * 100.0)`. */
  function ParseAmount(rev: Revision, content: string): Option<nat> {
    if content == [] then None
    else
      match rev
      case Legacy => ParseFound(content, Find(AmountLegacy, content, 0))
      case Current =>
        var p := ParseFound(content, Find(AmountPrefix, content, 0));
        if p.Some? then p else ParseFound(content, Find(AmountSuffix, content, 0))
  }

  // ---------------------------------------------------------------------------
  // Where each pattern matches

  ghost predicate HasPrefixAmount(s: string, i: nat) {
    exists j: nat, e: nat :: IsPrefixAmount(s, i, j, e)
  }

  ghost predicate HasSuffixAmount(s: string, i: nat) {
    exists e: nat, t: nat :: IsSuffixAmount(s, i, e, t)
  }

  ghost predicate HasLegacyAmount(s: string, i: nat) {
    exists j: nat, e: nat :: IsLegacyAmount(s, i, j, e)
  }

  /** Each amount matcher succeeds at `i` exactly when its pattern's language has a member starting at `i`. */
  lemma MatchAtIffMember(s: string, i: nat)
    requires i <= |s|
    ensures MatchAt(AmountPrefix, s, i).Some? <==> HasPrefixAmount(s, i)
    ensures MatchAt(AmountSuffix, s, i).Some? <==> HasSuffixAmount(s, i)
    ensures MatchAt(AmountLegacy, s, i).Some? <==> HasLegacyAmount(s, i)
  {
    PrefixAtIsJavaMatch(s, i);
    SuffixAtIsJavaMatch(s, i);
    LegacyAtIsJavaMatch(s, i);
  }

  /** The group of every amount match parses, so `parseAmount` never reaches its `catch`. */
  lemma FoundAmountParses(pat: Pattern, s: string)
    requires pat.AmountPrefix? || pat.AmountSuffix? || pat.AmountLegacy?
    ensures Find(pat, s, 0).Some? ==> ParseFound(s, Find(pat, s, 0)).Some?
  {
    if Find(pat, s, 0).Some? {
      var m := Find(pat, s, 0).value;
      if pat.AmountPrefix? {
        PrefixAtIsJavaMatch(s, m.start);
        AmountNumberParses(s, m.groupStart, m.groupEnd);
      } else if pat.AmountSuffix? {
        SuffixAtIsJavaMatch(s, m.start);
        AmountNumberParses(s, m.groupStart, m.groupEnd);
      } else {
        LegacyAtIsJavaMatch(s, m.start);
        LegacyNumberParses(s, m.groupStart, m.groupEnd);
      }
    }
  }

  // ---------------------------------------------------------------------------
  // The current revision

  /** The current revision finds an amount exactly when the content has a prefixed or suffixed amount somewhere. */
  lemma CurrentAmountIffCurrencyContext(s: string)
    ensures ParseAmount(Current, s).Some? <==>
      (exists i: nat :: HasPrefixAmount(s, i)) || (exists i: nat :: HasSuffixAmount(s, i))
  {
    FoundAmountParses(AmountPrefix, s);
    FoundAmountParses(AmountSuffix, s);
    if s != [] {
      var fp, fs := Find(AmountPrefix, s, 0), Find(AmountSuffix, s, 0);
      if fp.Some? {
        MatchAtIffMember(s, fp.value.start);
      } else if fs.Some? {
        MatchAtIffMember(s, fs.value.start);
      }
      forall i: nat | HasPrefixAmount(s, i) || HasSuffixAmount(s, i)
        ensures fp.Some? || fs.Some?
      {
        var j: nat, e: nat :| IsPrefixAmount(s, i, j, e) || IsSuffixAmount(s, i, j, e);
        MatchAtIffMember(s, i);
      }
    }
  }

  /** A number of the current revision's language always has a decimal point. */
  lemma AmountNumberHasPoint(s: string, a: nat, b: nat)
    requires a <= b <= |s| && IsAmountNumber(s, a, b)
    ensures '.' in s[a..b]
  {
    var k: nat :| IsDecimalSplit(s, a, k, b);
    assert s[a..b][k - a] == s[k] == '.';
  }

  /** A number in the current revision's language has a `.` in the text around it. */
  lemma AmountNumberNeedsPoint(s: string, a: nat, b: nat)
    requires a <= b <= |s|
    ensures IsAmountNumber(s, a, b) ==> '.' in s
  {
    if IsAmountNumber(s, a, b) {
      AmountNumberHasPoint(s, a, b);
      SliceCharsIn(s, a, b);
    }
  }

  /** The current revision never reads a whole number: content without a `.` has no amount. */
  lemma CurrentAmountNeedsPoint(s: string)
    ensures ParseAmount(Current, s).Some? ==> '.' in s
  {
    CurrentAmountIffCurrencyContext(s);
    if i: nat :| HasPrefixAmount(s, i) {
      var j: nat, e: nat :| IsPrefixAmount(s, i, j, e);
      AmountNumberHasPoint(s, j, e);
      SliceCharsIn(s, j, e);
    } else if i: nat :| HasSuffixAmount(s, i) {
      var e: nat, t: nat :| IsSuffixAmount(s, i, e, t);
      AmountNumberHasPoint(s, i, e);
      SliceCharsIn(s, i, e);
    }
  }

  /**
    When prefixed amounts exist, the amount is that of the leftmost one, read as far as
    the pattern can (the longest group at that start).
   */
  lemma CurrentPrefersLeftmostPrefix(s: string, i: nat, j: nat, e: nat)
    requires IsPrefixAmount(s, i, j, e)
    requires forall i2: nat :: i2 < i ==> !HasPrefixAmount(s, i2)
    requires forall j2: nat, e2: nat :: IsPrefixAmount(s, i, j2, e2) ==> e2 <= e
    ensures ParseGroup(s, j, e).Some? && ParseAmount(Current, s) == ParseGroup(s, j, e)
  {
    AmountNumberParses(s, j, e);
    MatchAtIffMember(s, i);
    var f := Find(AmountPrefix, s, 0);
    assert f.Some?;
    var m := f.value;
    MatchAtIffMember(s, m.start);
    assert m.start == i;
    PrefixAtIsJavaMatch(s, i);
    assert PrefixAt(s, i) == f;
    assert m.groupStart == j && e <= m.groupEnd;
    assert m.groupEnd == e;
    assert s != [];
    assert ParseFound(s, f) == ParseGroup(s, j, e);
  }

  /**
    When no prefixed amount exists anywhere, the amount is that of the leftmost suffixed one
    (a suffixed amount is the only one at its start).
   */
  lemma CurrentFallsBackToLeftmostSuffix(s: string, i: nat, e: nat, t: nat)
    requires forall i2: nat :: !HasPrefixAmount(s, i2)
    requires IsSuffixAmount(s, i, e, t)
    requires forall i2: nat :: i2 < i ==> !HasSuffixAmount(s, i2)
    ensures ParseGroup(s, i, e).Some? && ParseAmount(Current, s) == ParseGroup(s, i, e)
  {
    AmountNumberParses(s, i, e);
    var fp := Find(AmountPrefix, s, 0);
    assert fp.None? by {
      if fp.Some? {
        MatchAtIffMember(s, fp.value.start);
      }
    }
    MatchAtIffMember(s, i);
    var fs := Find(AmountSuffix, s, 0);
    assert fs.Some?;
    var m := fs.value;
    MatchAtIffMember(s, m.start);
    assert m.start == i;
    SuffixAtIsJavaMatch(s, i);
    assert m == Match(i, i, e, t);
    assert s != [];
    assert ParseFound(s, fs) == ParseGroup(s, i, e);
  }

  // ---------------------------------------------------------------------------
  // The legacy revision

  /** `s` holds an ASCII digit. */
  predicate HasDigit(s: string) {
    exists k :: 0 <= k < |s| && IsDigit(s[k])
  }

  /** The legacy revision finds an amount exactly when the content holds an ASCII digit. */
  lemma LegacyAmountIffDigit(s: string)
    ensures ParseAmount(Legacy, s).Some? <==> HasDigit(s)
  {
    FoundAmountParses(AmountLegacy, s);
    var f := Find(AmountLegacy, s, 0);
    if f.Some? {
      LegacyAtIsMember(s, f.value.start);
      assert IsDigit(s[f.value.groupStart]);
    } else {
      NoLegacyMatchNoDigit(s);
    }
  }

  lemma NoLegacyMatchNoDigit(s: string)
    requires Find(AmountLegacy, s, 0).None?
    ensures forall k :: 0 <= k < |s| ==> !IsDigit(s[k])
  {
    forall k | 0 <= k < |s|
      ensures !IsDigit(s[k])
    {
      if IsDigit(s[k]) {
        LegacyDigitStartsMatch(s, k);
        MatchAtLegacyIsLegacyAt(s, k);
      }
    }
  }

  lemma MatchAtLegacyIsLegacyAt(s: string, i: nat)
    requires i <= |s|
    ensures MatchAt(AmountLegacy, s, i) == LegacyAt(s, i)
  {
  }

  /** At a digit the legacy pattern matches with an empty lead. */
  lemma LegacyDigitStartsMatch(s: string, d: nat)
    requires d < |s| && IsDigit(s[d])
    ensures LegacyAt(s, d).Some? && LegacyAt(s, d).value.groupStart == d
  {
    HasAtHead(s, d, "AUD");
    assert LegacyGroupStart(s, d) == d;
    LegacyNumberEndIsLongest(s, d);
  }

  /**
    The legacy amount is read from the first digit of the content, as far as the legacy
    number pattern can: the longest group starting there.
   */
  lemma LegacyReadsFromFirstDigit(s: string, d: nat, e: nat)
    requires d < |s| && IsDigit(s[d]) && forall k :: 0 <= k < d ==> !IsDigit(s[k])
    requires d <= e <= |s| && IsLegacyNumber(s, d, e)
    requires forall e2: nat :: d <= e2 <= |s| && IsLegacyNumber(s, d, e2) ==> e2 <= e
    ensures ParseGroup(s, d, e).Some? && ParseAmount(Legacy, s) == ParseGroup(s, d, e)
  {
    LegacyNumberParses(s, d, e);
    LegacyMatchStartsAtFirstDigit(s, d);
    var m := Find(AmountLegacy, s, 0).value;
    LegacyMatchIsLongest(s, m, e);
    assert s != [];
  }

  /** The legacy `find()` match has its group at the first digit of the content. */
  lemma LegacyMatchStartsAtFirstDigit(s: string, d: nat)
    requires d < |s| && IsDigit(s[d]) && forall k :: 0 <= k < d ==> !IsDigit(s[k])
    ensures Find(AmountLegacy, s, 0).Some?
    ensures var m := Find(AmountLegacy, s, 0).value;
      m.groupStart == d && LegacyAt(s, m.start) == Some(m)
  {
    LegacyDigitStartsMatch(s, d);
    MatchAtLegacyIsLegacyAt(s, d);
    var f := Find(AmountLegacy, s, 0);
    assert f.Some?;
    var m := f.value;
    MatchAtLegacyIsLegacyAt(s, m.start);
    LegacyAtIsMember(s, m.start);
  }

  /** A legacy match whose group starts where a longest legacy number does ends with that number. */
  lemma LegacyMatchIsLongest(s: string, m: Match, e: nat)
    requires m.start <= |s| && LegacyAt(s, m.start) == Some(m)
    requires m.groupStart <= e <= |s| && IsLegacyNumber(s, m.groupStart, e)
    requires forall e2: nat :: m.groupStart <= e2 <= |s| && IsLegacyNumber(s, m.groupStart, e2) ==> e2 <= e
    ensures m.groupEnd == e
  {
    LegacyAtIsJavaMatch(s, m.start);
    var a: nat, b: nat :| IsLegacyLead(s, m.start, a, b, m.groupStart);
    assert IsLegacyAmount(s, m.start, m.groupStart, e);
  }

  // ---------------------------------------------------------------------------
  // Round trips

  /** `$` followed by a formatted cents value is a prefixed amount whose group is the whole number. */
  lemma DollarAmountIsPrefixAmount(c: nat)
    ensures var s := "$" + FormatCents(c); IsPrefixAmount(s, 0, 1, |s|)
  {
    var s := "$" + FormatCents(c);
    DollarIsMarker(s);
    FormattedCentsAreAmountNumber(c, s);
    PrefixAmountIntro(s, 0, 1, 1, |s|);
  }

  lemma DollarIsMarker(s: string)
    requires |s| >= 1 && s[0] == '$'
    ensures IsCurrencyMarker(s, 0, 1)
  {
    assert PrefixSymbols[2] == "$";
    assert HasAt(s, 0, PrefixSymbols[2]);
  }

  lemma FormattedCentsAreAmountNumber(c: nat, s: string)
    requires s == "$" + FormatCents(c)
    ensures IsAmountNumber(s, 1, |s|)
  {
    var f := FormatCents(c);
    var k := Run(Digits, f, 0);
    assert forall x :: 0 <= x < |f| ==> s[x + 1] == f[x];
    assert AllIn(Digits, s, 1, 1 + k);
    assert IsFraction(s, 1 + k, |s|);
    assert IsDecimalSplit(s, 1, 1 + k, |s|);
  }

  /** A `$` amount written with cents reads back as the same number of cents. */
  lemma DollarAmountRoundTrip(c: nat)
    ensures ParseAmount(Current, "$" + FormatCents(c)) == Some(c)
  {
    var s := "$" + FormatCents(c);
    DollarAmountIsPrefixAmount(c);
    CurrentPrefersLeftmostPrefix(s, 0, 1, |s|);
    DollarGroupParses(c, s);
  }

  lemma DollarGroupParses(c: nat, s: string)
    requires s == "$" + FormatCents(c)
    ensures ParseGroup(s, 1, |s|) == Some(c)
  {
    var f := FormatCents(c);
    assert s[1..|s|] == f;
    RemoveCommasKeepsCommaFree(f);
    FormatCentsRoundTrip(c);
  }

  /** A `$` is the marker the matcher takes wherever it stands. */
  lemma DollarMarkerAt(s: string, i: nat)
    requires i < |s| && s[i] == '$'
    ensures IsCurrencyMarker(s, i, i + 1) && MarkerEnd(s, i) == Some(i + 1)
  {
    assert PrefixSymbols[2] == "$";
    assert HasAt(s, i, PrefixSymbols[2]);
    MarkerIsUnique(s, i, i + 1);
    HasAtHead(s, i, "AUD");
  }

  /** AMOUNT_PREFIX cannot match where no currency marker can start. */
  lemma NoPrefixWithoutMarkerHead(s: string, i: nat)
    requires i <= |s| && (i < |s| ==> !IsMarkerHead(s[i]))
    ensures MatchAt(AmountPrefix, s, i).None?
  {
    MarkerEndIsMarker(s, i);
    if MarkerEnd(s, i).Some? {
      MarkerStartsWithHead(s, i, MarkerEnd(s, i).value);
      assert false;
    }
    PrefixAtWithoutMarker(s, i);
  }

  /** The shape of a formatted cents value: digits, a point and two digits. */
  predicate IsCentsText(f: string) {
    |f| >= 4 && AllIn(Digits, f, 0, |f| - 3) && f[|f| - 3] == '.' && AllIn(Digits, f, |f| - 2, |f|)
  }

  lemma FormatCentsIsCentsText(c: nat)
    ensures IsCentsText(FormatCents(c))
  {
  }

  lemma CopiedDigits(s: string, j: nat, f: string, a: nat, b: nat)
    requires HasAt(s, j, f) && a <= b <= |f| && AllIn(Digits, f, a, b)
    ensures AllIn(Digits, s, j + a, j + b)
  {
    forall x | j + a <= x < j + b
      ensures InClass(Digits, s[x])
    {
      assert s[j + (x - j)] == f[x - j];
    }
  }

  /** The number group of a formatted cents value is read whole, whatever follows it. */
  lemma CentsNumberEnd(s: string, j: nat, f: string)
    requires HasAt(s, j, f) && IsCentsText(f)
    ensures NumberEnd(s, j) == Some(j + |f|)
  {
    var k := |f| - 3;
    CopiedDigits(s, j, f, 0, k);
    assert s[j + k] == f[k];
    RunIsLongest(Digits, s, j, j + k);
    NumberEndAtPoint(s, j, k);
    CopiedDigits(s, j, f, k + 1, k + 3);
    TwoDigitFraction(s, j + k);
  }

  /** Digits that stop at a point: the number group ends where the fraction after them does. */
  lemma NumberEndAtPoint(s: string, j: nat, k: nat)
    requires j + k < |s| && k >= 1 && Run(Digits, s, j) == k && s[j + k] == '.'
    ensures NumberEnd(s, j) == FractionEnd(s, j + k)
  {
    assert !IsGroupAt(s, j + k);
    assert GroupsEnd(s, j + k) == j + k;
  }

  lemma TwoDigitFraction(s: string, p: nat)
    requires p + 3 <= |s| && s[p] == '.' && AllIn(Digits, s, p + 1, p + 3)
    ensures FractionEnd(s, p) == Some(p + 3)
  {
    RunIsLongest(Digits, s, p + 1, p + 3);
  }

  lemma NoSpaceBeforeCents(s: string, j: nat, f: string)
    requires HasAt(s, j, f) && IsCentsText(f)
    ensures Run(Spaces, s, j) == 0
  {
    assert s[j + 0] == f[0];
    assert InClass(Digits, f[0]);
  }

  /** A `$` directly followed by a number is where AMOUNT_PREFIX matches, with that number as its group. */
  lemma DollarPrefixAt(s: string, i: nat, e: nat)
    requires i < |s| && MarkerEnd(s, i) == Some(i + 1) && Run(Spaces, s, i + 1) == 0 && NumberEnd(s, i + 1) == Some(e)
    ensures PrefixAt(s, i) == Some(Match(i, i + 1, e, e))
  {
    PrefixAtFromParts(s, i, i + 1, e);
  }

  lemma DollarMarkerEnd(s: string, i: nat)
    requires i < |s| && s[i] == '$'
    ensures MarkerEnd(s, i) == Some(i + 1)
  {
    DollarMarkerAt(s, i);
  }

  lemma PrefixMatchAt(s: string, i: nat)
    requires i <= |s|
    ensures MatchAt(AmountPrefix, s, i) == PrefixAt(s, i)
  {
  }

  /** Text without marker chars holds no start of a prefixed amount. */
  lemma NoPrefixAmountIn(s: string, a: nat, b: nat)
    requires a <= b <= |s|
    requires forall k :: a <= k < b ==> !IsMarkerHead(s[k])
    ensures forall j :: a <= j < b ==> MatchAt(AmountPrefix, s, j).None?
  {
    forall j | a <= j < b
      ensures MatchAt(AmountPrefix, s, j).None?
    {
      NoPrefixWithoutMarkerHead(s, j);
    }
  }

  /**
    Searching from `from`, AMOUNT_PREFIX finds the first `$` directly followed by a number
    when no marker char comes before it.
   */
  lemma DollarAmountFound(s: string, from: nat, i: nat, e: nat)
    requires from <= i < |s| && s[i] == '$' && Run(Spaces, s, i + 1) == 0 && NumberEnd(s, i + 1) == Some(e)
    requires forall k :: from <= k < i ==> !IsMarkerHead(s[k])
    ensures Find(AmountPrefix, s, from) == Some(Match(i, i + 1, e, e))
  {
    DollarMarkerEnd(s, i);
    DollarPrefixAt(s, i, e);
    PrefixMatchAt(s, i);
    NoPrefixAmountIn(s, from, i);
    FindReturnsFirst(AmountPrefix, s, from, i);
  }

  /** From `from` on, text without marker chars holds no prefixed amount. */
  lemma NoDollarAmountFrom(s: string, from: nat)
    requires from <= |s|
    requires forall k :: from <= k < |s| ==> !IsMarkerHead(s[k])
    ensures forall j :: from <= j <= |s| ==> MatchAt(AmountPrefix, s, j).None?
  {
    NoPrefixAmountIn(s, from, |s|);
    NoPrefixWithoutMarkerHead(s, |s|);
  }

  /**
    A `$` amount written with cents reads back as the same number of cents wherever it
    stands in the content, as long as no currency marker char comes before it: the text
    around it changes nothing.
   */
  lemma DollarAmountInTextRoundTrip(u: string, c: nat, w: string)
    requires MarkerFree(u)
    ensures ParseAmount(Current, u + "$" + FormatCents(c) + w) == Some(c)
  {
    FormatCentsIsCentsText(c);
    DollarGroupValue(c);
    DollarCentsInText(u, FormatCents(c), w, c);
  }

  /** The same, for any text of the shape `FormatCents` produces that parses to `c`. */
  lemma DollarCentsInText(u: string, f: string, w: string, c: nat)
    requires MarkerFree(u)
    requires IsCentsText(f) && ParseGroup(f, 0, |f|) == Some(c)
    ensures ParseAmount(Current, u + "$" + f + w) == Some(c)
  {
    DollarInText(u, f, w);
    DollarCentsAt(u + "$" + f + w, |u|, f, c);
  }

  /** The first `$` of the content, directly followed by a formatted cents value, gives the amount. */
  lemma DollarCentsAt(s: string, i: nat, f: string, c: nat)
    requires i < |s| && s[i] == '$' && HasAt(s, i + 1, f)
    requires forall k :: 0 <= k < i ==> !IsMarkerHead(s[k])
    requires IsCentsText(f) && ParseGroup(f, 0, |f|) == Some(c)
    ensures ParseAmount(Current, s) == Some(c)
  {
    var e := i + 1 + |f|;
    CentsAfterDollar(s, i, f);
    DollarAmountFound(s, 0, i, e);
    CurrentReadsFoundPrefix(s, Match(i, i + 1, e, e));
  }

  lemma CentsAfterDollar(s: string, i: nat, f: string)
    requires i < |s| && HasAt(s, i + 1, f) && IsCentsText(f)
    ensures var e := i + 1 + |f|;
      && Run(Spaces, s, i + 1) == 0 && NumberEnd(s, i + 1) == Some(e)
      && ParseGroup(s, i + 1, e) == ParseGroup(f, 0, |f|)
  {
    CentsNumberEnd(s, i + 1, f);
    NoSpaceBeforeCents(s, i + 1, f);
    GroupOfCopy(s, i + 1, f);
  }

  /** Where the parts of `u + "$" + f + w` stand. */
  lemma DollarInText(u: string, f: string, w: string)
    ensures var s := u + "$" + f + w;
      && |u| < |s| && s[|u|] == '$' && HasAt(s, |u| + 1, f)
      && (forall k :: 0 <= k < |u| ==> s[k] == u[k])
  {
  }

  lemma DollarGroupValue(c: nat)
    ensures ParseGroup(FormatCents(c), 0, |FormatCents(c)|) == Some(c)
  {
    var f := FormatCents(c);
    assert f[0..|f|] == f;
    RemoveCommasKeepsCommaFree(f);
    FormatCentsRoundTrip(c);
  }

  /** A group is parsed from its chars alone. */
  lemma GroupOfCopy(s: string, a: nat, f: string)
    requires HasAt(s, a, f)
    ensures ParseGroup(s, a, a + |f|) == ParseGroup(f, 0, |f|)
  {
    assert s[a..a + |f|] == f == f[0..|f|];
  }

  /** When AMOUNT_PREFIX finds a match whose group parses, that is the current revision's amount. */
  lemma CurrentReadsFoundPrefix(s: string, m: Match)
    requires Find(AmountPrefix, s, 0) == Some(m) && ParseGroup(s, m.groupStart, m.groupEnd).Some?
    ensures ParseAmount(Current, s) == ParseGroup(s, m.groupStart, m.groupEnd)
  {
  }
}
