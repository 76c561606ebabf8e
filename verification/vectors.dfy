/**
  Worked examples: what each revision makes of a few concrete notification texts.
  Each lemma takes its text as a parameter fixed by its `requires`, which keeps the verifier
  from unfolding the string literal in every proof obligation.
 */
module Vectors {
  import opened Chars
  import opened Spans
  import opened Numbers
  import opened Decimals
  import opened Patterns
  import opened AmountLanguage
  import opened NoiseLanguage
  import opened Text
  import opened Config
  import opened Keywords
  import opened Amounts
  import opened Merchants
  import opened Wrappers

  // ---------------------------------------------------------------------------
  // Amounts

  /** "Paid $5": a whole number is no amount for the current revision, even after `$`. */
  lemma WholeDollarsAreNoAmount(s: string)
    requires s == "Paid $5"
    ensures ParseAmount(Current, s) == None
  {
    assert forall k :: 0 <= k < |s| ==> s[k] != '.';
    CurrentAmountNeedsPoint(s);
  }

  lemma AudGroupDropsComma(t: string)
    requires t == "1,234.50"
    ensures RemoveCommas(t) == "1234.50"
  {
    var head, tail := t[..1], t[2..];
    assert head == "1" && tail == "234.50";
    assert t == head + [','] + tail;
    assert forall k :: 0 <= k < |tail| ==> tail[k] != ',';
    DropComma(head, tail);
    RemoveCommasKeepsCommaFree(head);
  }

  lemma AudGroupCents(t: string)
    requires t == "1234.50"
    ensures IsPlainDecimal(t) && DecimalCents(t) == 123450
  {
    assert Run(Digits, t, 4) == 0;
    assert Run(Digits, t, 0) == 4;
    var d := t[..4];
    assert d[..3][..2][..1][..0] == [];
    assert DigitsValue(d[..3][..2][..1]) == 1;
    assert DigitsValue(d[..3][..2]) == 12;
    assert DigitsValue(d[..3]) == 123;
    assert DigitsValue(d) == 1234;
  }

  lemma AudGroupParses(s: string)
    requires s == "AUD 1,234.50"
    ensures ParseGroup(s, 4, 12) == Some(123450)
  {
    var t := s[4..12];
    assert t == "1,234.50";
    AudGroupDropsComma(t);
    AudGroupCents(RemoveCommas(t));
  }

  lemma AudIsPrefixAmount(s: string)
    requires s == "AUD 1,234.50"
    ensures IsPrefixAmount(s, 0, 4, 12)
  {
    assert HasAt(s, 0, "AUD") && AllIn(Spaces, s, 3, 4);
    assert IsCurrencyMarker(s, 0, 4);
    assert IsGroupedInteger(s, 4, 5);
    assert IsGroupAt(s, 5);
    assert IsGroupedInteger(s, 4, 9);
    assert IsFraction(s, 9, 12);
    assert IsDecimalSplit(s, 4, 9, 12);
  }

  /** "AUD 1,234.50": "AUD" and a space make a currency marker, and the thousands comma is dropped. */
  lemma AudAmount(s: string)
    requires s == "AUD 1,234.50"
    ensures ParseAmount(Current, s) == Some(123450)
  {
    AudIsPrefixAmount(s);
    AudGroupParses(s);
    CurrentPrefersLeftmostPrefix(s, 0, 4, 12);
  }

  lemma CentsMarker(s: string)
    requires s == "Paid $12.34"
    ensures IsCurrencyMarker(s, 5, 6)
  {
    assert HasAt(s, 5, PrefixSymbols[2]);
  }

  lemma CentsNumber(s: string)
    requires s == "Paid $12.34"
    ensures IsAmountNumber(s, 6, 11)
  {
    assert AllIn(Digits, s, 6, 8);
    assert AllIn(Digits, s, 9, 11);
    assert IsFraction(s, 8, 11);
    assert IsDecimalSplit(s, 6, 8, 11);
  }

  lemma CentsNoMarkerBefore(s: string)
    requires s == "Paid $12.34"
    ensures forall i: nat :: i < 5 ==> !HasPrefixAmount(s, i)
  {
    forall i: nat | i < 5 && HasPrefixAmount(s, i)
      ensures false
    {
      var j: nat, e: nat :| IsPrefixAmount(s, i, j, e);
      var m :| i <= m <= j && IsCurrencyMarker(s, i, m) && AllIn(Spaces, s, m, j);
      MarkerStartsWithHead(s, i, m);
    }
  }

  lemma CentsMarkerEnd(s: string)
    requires s == "Paid $12.34"
    ensures MarkerEnd(s, 5) == Some(6)
  {
    CentsMarker(s);
    MarkerIsUnique(s, 5, 6);
    HasAtHead(s, 5, "AUD");
  }

  lemma CentsNumberEnd(s: string)
    requires s == "Paid $12.34"
    ensures NumberEnd(s, 6) == Some(11)
  {
    assert Run(Digits, s, 8) == 0;
    assert Run(Digits, s, 6) == 2;
    assert GroupsEnd(s, 8) == 8;
    assert Run(Digits, s, 11) == 0;
    assert Run(Digits, s, 9) == 2;
  }

  lemma CentsNumberIsLongest(s: string)
    requires s == "Paid $12.34"
    ensures forall j: nat, e: nat :: IsPrefixAmount(s, 5, j, e) ==> e <= 11
  {
    CentsMarkerEnd(s);
    CentsNumberEnd(s);
    HasAtHead(s, 5, "AUD");
    forall j: nat, e: nat | IsPrefixAmount(s, 5, j, e)
      ensures e <= 11
    {
      var m :| 5 <= m <= j && IsCurrencyMarker(s, 5, m) && AllIn(Spaces, s, m, j);
      MarkerIsUnique(s, 5, m);
      assert !IsSpace(s[6]);
      NumberEndCoversMember(s, 6, e);
    }
  }

  lemma CentsGroupParses(s: string)
    requires s == "Paid $12.34"
    ensures ParseGroup(s, 6, 11) == Some(1234)
  {
    var t := s[6..11];
    assert t == "12.34";
    RemoveCommasKeepsCommaFree(t);
    assert Run(Digits, t, 2) == 0;
    assert Run(Digits, t, 0) == 2;
    var d := t[..2];
    assert d[..1][..0] == [];
    assert DigitsValue(d[..1]) == 1;
    assert DigitsValue(d) == 12;
  }

  /** "Paid $12.34": the amount after `$`, in cents. */
  lemma DollarsAndCentsAmount(s: string)
    requires s == "Paid $12.34"
    ensures ParseAmount(Current, s) == Some(1234)
  {
    CentsMarker(s);
    CentsNumber(s);
    assert IsPrefixAmount(s, 5, 6, 11);
    CentsNoMarkerBefore(s);
    CentsNumberIsLongest(s);
    CentsGroupParses(s);
    CurrentPrefersLeftmostPrefix(s, 5, 6, 11);
  }

  lemma LegacyGroupIsOneDigit(s: string)
    requires s == "$1,234"
    ensures forall e2: nat :: 1 <= e2 <= |s| && IsLegacyNumber(s, 1, e2) ==> e2 <= 2
  {
    assert '.' !in s;
    assert s[2] == ',';
    forall e2: nat | 1 <= e2 <= |s| && IsLegacyNumber(s, 1, e2)
      ensures e2 <= 2
    {
      AmountNumberNeedsPoint(s, 1, e2);
    }
  }

  lemma OneDollarCents(s: string)
    requires s == "$1,234"
    ensures ParseGroup(s, 1, 2) == Some(100)
  {
    var t := s[1..2];
    assert t == "1";
    RemoveCommasKeepsCommaFree(t);
    assert Run(Digits, t, 1) == 0;
    assert Run(Digits, t, 0) == 1;
    assert IsPlainDecimal(t);
    assert t[..1] == t;
    assert t[..0] == [];
    assert DigitsValue(t) == 1;
  }

  /** "$1,234": without cents the legacy pattern takes the plain-digits alternative and reads only "1". */
  lemma LegacyReadsOneDollar(s: string)
    requires s == "$1,234"
    ensures ParseAmount(Legacy, s) == Some(100)
  {
    LegacyGroupIsOneDigit(s);
    OneDollarCents(s);
    assert AllIn(Digits, s, 1, 2);
    LegacyReadsFromFirstDigit(s, 1, 2);
  }

  // ---------------------------------------------------------------------------
  // The gate

  lemma RefundLowered(t: string)
    requires t == "Refund issued"
    ensures Lower(t) == "refund issued"
  {
  }

  lemma RefundPassesCurrentGate(t: string)
    requires t == "Refund issued"
    ensures ContainsPaymentKeyword(Current, Some(t))
  {
    RefundLowered(t);
    GateReducesToShortKeywords(Current, t);
    assert HasAt(Lower(t), 0, "refund");
  }

  lemma RefundFailsLegacyGate(t: string)
    requires t == "Refund issued"
    ensures !ContainsPaymentKeyword(Legacy, Some(t))
  {
    RefundLowered(t);
    var l := Lower(t);
    assert 'p' !in l;
    ContainsNeedsHead(l, "paid");
    ContainsNeedsHead(l, "payment");
    ContainsNeedsHead(l, "purchase");
    ContainsNeedsHead(t, "支付");
    ContainsNeedsHead(t, "付款");
    GateReducesToShortKeywords(Legacy, t);
  }

  /** "Refund issued" passes the current gate only: the legacy revision has no refund keywords. */
  lemma RefundPassesCurrentGateOnly(t: string)
    requires t == "Refund issued"
    ensures ContainsPaymentKeyword(Current, Some(t))
    ensures !ContainsPaymentKeyword(Legacy, Some(t))
  {
    RefundPassesCurrentGate(t);
    RefundFailsLegacyGate(t);
  }

  // ---------------------------------------------------------------------------
  // Merchants

  lemma JoeNoHintBefore(s: string)
    requires s == "Paid at Joe's Cafe"
    ensures forall j :: 0 <= j < 5 ==> MatchAt(HintPattern(At), s, j).None?
  {
    forall j | 0 <= j < 5
      ensures MatchAt(HintPattern(At), s, j).None?
    {
      assert !HintWordAt(At, s, j) by {
        var w := HintWord(At);
        assert w[0] == 'a' && w[1] == 't' && IsLatin(At);
        if j == 0 {
          assert ToLower(s[j + 0]) == 'p';
        } else if j == 1 {
          assert ToLower(s[j + 1]) == 'i';
        } else {
          assert ToLower(s[j + 0]) == s[j] != 'a';
        }
      }
    }
  }

  lemma JoeHintWord(s: string)
    requires s == "Paid at Joe's Cafe"
    ensures HintWordAt(At, s, 5) && IsWordBoundary(s, 5)
    ensures Run(Spaces, s, 7) == 1
  {
    assert HintWordAt(At, s, 5);
    assert Run(Spaces, s, 8) == 0;
  }

  lemma JoeCapture(s: string)
    requires s == "Paid at Joe's Cafe"
    ensures CaptureAt(HintChars, s, 5, 8) == Some(Match(5, 8, 11, 11))
  {
    assert Run(HintChars, s, 11) == 0;
    assert Run(HintChars, s, 10) == 1;
    assert Run(HintChars, s, 9) == 2;
    assert Run(HintChars, s, 8) == 3;
  }

  lemma JoeHintAt(s: string)
    requires s == "Paid at Joe's Cafe"
    ensures MatchAt(HintPattern(At), s, 5) == Some(Match(5, 8, 11, 11))
  {
    JoeHintWord(s);
    JoeCapture(s);
    assert SpacesThenCapture(HintChars, s, 5, 7, 1) == Some(Match(5, 8, 11, 11));
    assert HintAt(At, s, 5) == SpacesThenCapture(HintChars, s, 5, 7, 1);
  }

  lemma JoeFound(s: string)
    requires s == "Paid at Joe's Cafe"
    ensures Find(HintPattern(At), s, 0) == Some(Match(5, 8, 11, 11))
  {
    JoeNoHintBefore(s);
    JoeHintAt(s);
    FindReturnsFirst(HintPattern(At), s, 0, 5);
  }

  lemma JoeIsPlainName(t: string)
    requires t == "Joe"
    ensures TrimMerchant(t) == t
  {
    TrimMerchantKeepsPlainName(t);
  }

  lemma JoeHintCandidate(s: string)
    requires s == "Paid at Joe's Cafe"
    ensures HintCandidate(At, s) == Some("Joe")
  {
    JoeFound(s);
    assert s[8..11] == "Joe";
    JoeIsPlainName(s[8..11]);
  }

  lemma JoeJoined(s: string)
    requires s == "Paid at Joe's Cafe"
    ensures JoinNonBlank(Separator, MerchantParts(Current, s, "", "", "")) == s
  {
    JoinNonBlankJoinsNonEmpty(Separator, [s, "", "", ""]);
    assert NonEmpty([s, "", "", ""]) == [s];
  }

  lemma JoeTrimmed(s: string)
    requires s == "Paid at Joe's Cafe"
    ensures Trim(s) == s
  {
    assert IsTrimSpan(s, 0, |s|);
    TrimIsUnique(s, 0, |s|);
    assert s[0..|s|] == s;
  }

  lemma JoeCleanedText(s: string)
    requires s == "Paid at Joe's Cafe"
    ensures Cleaned(Current, s, "", "", "") == s
  {
    JoeJoined(s);
    assert '.' !in s;
    StripWithoutPointKeepsText(s);
    JoeTrimmed(s);
  }

  /** "Paid at Joe's Cafe": the capture after "at" stops at the apostrophe. */
  lemma ApostropheEndsMerchant(s: string)
    requires s == "Paid at Joe's Cafe"
    ensures ParseMerchant(Current, s, "", "", "") == Some("Joe")
  {
    JoeCleanedText(s);
    JoeHintCandidate(s);
    assert Candidates(s, HintOrder)[0] == Some("Joe");
  }

  lemma NoTrailingNoiseBeforeLastDash(s: string)
    requires s == "A -- -"
    ensures forall j :: 0 <= j < 4 ==> MatchAt(TrailingNoise, s, j).None?
  {
    forall j | 0 <= j < 4
      ensures MatchAt(TrailingNoise, s, j).None?
    {
      if j == 1 {
        NoNoiseBeforeDashes(s);
      } else {
        assert !IsSpace(s[j]);
        NoNoiseAtNonSpace(s, j);
      }
    }
  }

  lemma NoNoiseBeforeDashes(s: string)
    requires s == "A -- -"
    ensures MatchAt(TrailingNoise, s, 1).None?
  {
    MatchAtNoiseIsTrailingNoiseAt(s, 1);
    assert Run(Spaces, s, 2) == 0 && Run(Spaces, s, 1) == 1;
    assert Run(Dashes, s, 4) == 0 && Run(Dashes, s, 3) == 1 && Run(Dashes, s, 2) == 2;
    assert Run(Spaces, s, 5) == 0 && Run(Spaces, s, 4) == 1;
  }

  lemma TrailingNoiseAtLastDash(s: string)
    requires s == "A -- -"
    ensures MatchAt(TrailingNoise, s, 4) == Some(Match(4, 4, 6, 6))
  {
    MatchAtNoiseIsTrailingNoiseAt(s, 4);
    assert Run(Spaces, s, 5) == 0 && Run(Spaces, s, 4) == 1;
    assert Run(Dashes, s, 6) == 0 && Run(Dashes, s, 5) == 1;
    assert Run(Spaces, s, 6) == 0;
  }

  lemma NoiseAfterDashes(s: string)
    requires s == "A -- -"
    ensures DeleteAll(TrailingNoise, s) == "A --"
  {
    NoTrailingNoiseBeforeLastDash(s);
    TrailingNoiseAtLastDash(s);
    FindReturnsFirst(TrailingNoise, s, 0, 4);
    RemoveNoiseCutsFirstMatch(s);
    assert s[..4] + s[6..] == "A --";
  }

  lemma NoTrailingNoiseAtName(s: string)
    requires s == "A --"
    ensures MatchAt(TrailingNoise, s, 0).None?
  {
    MatchAtNoiseIsTrailingNoiseAt(s, 0);
    assert !IsSpace(s[0]);
  }

  lemma TrailingNoiseAfterName(s: string)
    requires s == "A --"
    ensures MatchAt(TrailingNoise, s, 1) == Some(Match(1, 1, 4, 4))
  {
    MatchAtNoiseIsTrailingNoiseAt(s, 1);
    assert Run(Spaces, s, 2) == 0 && Run(Spaces, s, 1) == 1;
    assert Run(Dashes, s, 4) == 0 && Run(Dashes, s, 3) == 1 && Run(Dashes, s, 2) == 2;
    assert Run(Spaces, s, 4) == 0;
  }

  lemma NoiseAfterName(s: string)
    requires s == "A --"
    ensures DeleteAll(TrailingNoise, s) == "A"
  {
    NoTrailingNoiseAtName(s);
    TrailingNoiseAfterName(s);
    FindReturnsFirst(TrailingNoise, s, 0, 1);
    RemoveNoiseCutsFirstMatch(s);
    assert s[..1] + s[4..] == "A";
  }

  lemma TrimMerchantOfTrimmed(s: string)
    requires s != [] && !IsTrimmable(s[0]) && !IsTrimmable(s[|s| - 1])
    requires forall k :: 0 <= k < |s| ==> !IsSeparatorNoise(s[k])
    requires |DeleteAll(TrailingNoise, s)| <= MaxMerchantLength
    ensures TrimMerchant(s) == DeleteAll(TrailingNoise, s)
  {
    assert BlankSeparators(s) == s;
    assert IsTrimSpan(s, 0, |s|);
    TrimIsUnique(s, 0, |s|);
    assert s[0..|s|] == s;
  }

  lemma DashesHaveNoSeparator(s: string)
    requires s == "A -- -"
    ensures forall k :: 0 <= k < |s| ==> !IsSeparatorNoise(s[k])
  {
  }

  lemma TrimDashes(s: string, t: string)
    requires s == "A -- -" && t == "A --"
    ensures TrimMerchant(s) == t
  {
    DashesHaveNoSeparator(s);
    assert !IsTrimmable(s[0]) && !IsTrimmable(s[|s| - 1]);
    NoiseAfterDashes(s);
    TrimMerchantOfTrimmed(s);
  }

  lemma NameHasNoSeparator(t: string)
    requires t == "A --"
    ensures forall k :: 0 <= k < |t| ==> !IsSeparatorNoise(t[k])
    ensures !IsTrimmable(t[0]) && !IsTrimmable(t[|t| - 1])
  {
  }

  lemma TrimName(t: string)
    requires t == "A --"
    ensures TrimMerchant(t) == "A"
  {
    NameHasNoSeparator(t);
    NoiseAfterName(t);
    TrimMerchantOfTrimmed(t);
  }

  /** `trimMerchant` removes one trailing `\s+\-*\s*` only, so applying it again can remove more. */
  lemma TrimMerchantIsNotIdempotent(s: string, t: string)
    requires s == "A -- -" && t == "A --"
    ensures TrimMerchant(s) == t
    ensures TrimMerchant(t) == "A"
  {
    TrimDashes(s, t);
    TrimName(t);
  }
}
