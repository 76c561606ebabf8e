/**
  The test notification the app posts from its start screen: title "Payment successful",
  text "You paid $12.34 at Starbucks", the same text as big text, and no text lines. The
  current revision stores it as 12.34 at "Starbucks".

  The title is `t`, the text `x`; the pieces of `x` around its amount are `y` and `f`.
  Each lemma takes the strings it talks about as parameters fixed by its `requires`.
 */
module Scenario {
  import opened Chars
  import opened Spans
  import opened Numbers
  import opened Decimals
  import opened Text
  import opened Config
  import opened Patterns
  import opened AmountLanguage
  import opened NoiseLanguage
  import opened Keywords
  import opened Amounts
  import opened Merchants
  import opened Listener
  import opened Wrappers

  // ---------------------------------------------------------------------------
  // The joined content

  /** The content is title, text and big text, separated by " | "; the empty line list adds nothing. */
  lemma ContentJoinsThreeParts(t: string, x: string)
    requires t == "Payment successful" && x == "You paid $12.34 at Starbucks"
    ensures Content(Current, Extras(t, x, x, [])) == t + " | " + x + " | " + x
    ensures MerchantOf(Current, Extras(t, x, x, [])) == ParseMerchant(Current, t, x, x, "")
  {
    assert LinesJoin([]) == [];
    JoinsThreeParts(Separator, t, x, x);
  }

  /** Three non-empty parts and an empty one are joined with two separators. */
  lemma JoinsThreeParts(sep: string, a: string, b: string, c: string)
    requires a != [] && b != [] && c != []
    ensures JoinNonBlank(sep, [a, b, c, ""]) == a + sep + b + sep + c
  {
    JoinNonBlankJoinsNonEmpty(sep, [a, b, c, ""]);
    assert [""][1..] == [] && NonEmpty([""]) == [];
    assert [c, ""][1..] == [""] && NonEmpty([c, ""]) == [c];
    assert [b, c, ""][1..] == [c, ""] && NonEmpty([b, c, ""]) == [b, c];
    assert [a, b, c, ""][1..] == [b, c, ""] && NonEmpty([a, b, c, ""]) == [a, b, c];
    assert [a, b][..1] == [a] && Join(sep, [a, b]) == a + sep + b;
    assert [a, b, c][..2] == [a, b] && Join(sep, [a, b, c]) == a + sep + b + sep + c;
  }

  /** The text is its two pieces around the amount "$12.34". */
  lemma TextPieces(x: string, y: string, f: string)
    requires x == "You paid $12.34 at Starbucks" && y == "You paid " && f == " at Starbucks"
    ensures x == y + "$12.34" + f
  {
  }

  // ---------------------------------------------------------------------------
  // The amount

  /** Where the two amounts sit in the content, and the text before, between and after them. */
  lemma ContentAmounts(t: string, x: string, c: string)
    requires t == "Payment successful" && x == "You paid $12.34 at Starbucks" && c == t + " | " + x + " | " + x
    ensures |c| == 80 && c[30] == '$' && c[31..36] == "12.34" && c[61] == '$' && c[62..67] == "12.34"
  {
    assert c[31..36] == x[10..15];
    assert c[62..67] == x[10..15];
  }

  lemma ContentHeadIsMarkerFree(t: string, x: string, c: string)
    requires t == "Payment successful" && x == "You paid $12.34 at Starbucks" && c == t + " | " + x + " | " + x
    ensures MarkerFreeIn(c, 0, 30)
  {
    assert forall k :: 0 <= k < 30 ==> !IsMarkerHead(c[k]);
    MarkerFreeInMeans(c, 0, 30);
  }

  lemma ContentMiddleIsMarkerFree(t: string, x: string, c: string)
    requires t == "Payment successful" && x == "You paid $12.34 at Starbucks" && c == t + " | " + x + " | " + x
    ensures MarkerFreeIn(c, 36, 61)
  {
    assert forall k :: 36 <= k < 61 ==> !IsMarkerHead(c[k]);
    MarkerFreeInMeans(c, 36, 61);
  }

  lemma ContentTailIsMarkerFree(t: string, x: string, c: string)
    requires t == "Payment successful" && x == "You paid $12.34 at Starbucks" && c == t + " | " + x + " | " + x
    ensures MarkerFreeIn(c, 67, 80)
  {
    assert forall k :: 67 <= k < 80 ==> !IsMarkerHead(c[k]);
    MarkerFreeInMeans(c, 67, 80);
  }

  lemma CentsText()
    ensures IsCentsText("12.34")
  {
  }

  /** AMOUNT_PREFIX first finds "$12.34" in the first copy of the text. */
  lemma FirstAmountFound(t: string, x: string, c: string)
    requires t == "Payment successful" && x == "You paid $12.34 at Starbucks" && c == t + " | " + x + " | " + x
    ensures Find(AmountPrefix, c, 0) == Some(Match(30, 31, 36, 36))
  {
    ContentAmounts(t, x, c);
    ContentHeadIsMarkerFree(t, x, c);
    CentsText();
    DollarCentsFoundIn(c, 0, 30, "12.34");
  }

  lemma SecondAmountFound(t: string, x: string, c: string)
    requires t == "Payment successful" && x == "You paid $12.34 at Starbucks" && c == t + " | " + x + " | " + x
    ensures Find(AmountPrefix, c, 36) == Some(Match(61, 62, 67, 67))
  {
    ContentAmounts(t, x, c);
    ContentMiddleIsMarkerFree(t, x, c);
    CentsText();
    DollarCentsFoundIn(c, 36, 61, "12.34");
  }

  lemma NoThirdAmount(t: string, x: string, c: string)
    requires t == "Payment successful" && x == "You paid $12.34 at Starbucks" && c == t + " | " + x + " | " + x
    ensures Find(AmountPrefix, c, 67).None?
  {
    ContentAmounts(t, x, c);
    ContentTailIsMarkerFree(t, x, c);
    NoDollarFound(c, 67);
  }

  lemma CentsGroupParses(u: string)
    requires u == "12.34"
    ensures RemoveCommas(u) == u && IsPlainDecimal(u) && DecimalCents(u) == 1234
  {
    RemoveCommasKeepsCommaFree(u);
    assert Run(Digits, u, 2) == 0;
    assert Run(Digits, u, 0) == 2;
    var d := u[..2];
    assert d[..1][..0] == [];
    assert DigitsValue(d[..1]) == 1;
    assert DigitsValue(d) == 12;
  }

  /** `parseAmount` reads the first amount: 12.34, that is 1234 cents. */
  lemma ContentAmountIsCents(t: string, x: string, c: string)
    requires t == "Payment successful" && x == "You paid $12.34 at Starbucks" && c == t + " | " + x + " | " + x
    ensures ParseAmount(Current, c) == Some(1234)
  {
    ContentAmounts(t, x, c);
    CentsGroupParses(c[31..36]);
    FirstAmountFound(t, x, c);
    CurrentReadsFoundPrefix(c, Match(30, 31, 36, 36));
  }

  /** The content passes the gate: it starts with "Payment". */
  lemma ContentPassesGate(t: string, x: string, c: string)
    requires t == "Payment successful" && x == "You paid $12.34 at Starbucks" && c == t + " | " + x + " | " + x
    ensures ContainsPaymentKeyword(Current, Some(c))
  {
    GateReducesToShortKeywords(Current, c);
    assert HasAt(Lower(c), 0, "payment");
  }

  // ---------------------------------------------------------------------------
  // The merchant

  /** AMOUNT_PREFIX removal cuts both "$12.34" out of the content and keeps the rest. */
  lemma PrefixAmountsRemoved(t: string, x: string, c: string)
    requires t == "Payment successful" && x == "You paid $12.34 at Starbucks" && c == t + " | " + x + " | " + x
    ensures DeleteAll(AmountPrefix, c) == c[0..30] + c[36..61] + c[67..]
  {
    FirstAmountFound(t, x, c);
    SecondAmountFound(t, x, c);
    NoThirdAmount(t, x, c);
    DeleteAroundTwoMatches(AmountPrefix, c, Match(30, 31, 36, 36), Match(61, 62, 67, 67));
  }

  /** Cutting the same middle out of both copies of a text joins what is left of them. */
  lemma CutMiddles(t: string, sep: string, y: string, m: string, f: string)
    ensures var c := t + sep + (y + m + f) + sep + (y + m + f);
      var a := |t| + |sep| + |y|; var b := a + |m|; var e := b + |f| + |sep| + |y|; var g := e + |m|;
      && g + |f| == |c|
      && c[0..a] + c[b..e] + c[g..] == t + sep + y + f + sep + y + f
  {
    var c := t + sep + (y + m + f) + sep + (y + m + f);
    var a := |t| + |sep| + |y|; var b := a + |m|; var e := b + |f| + |sep| + |y|; var g := e + |m|;
    assert c[0..a] == t + sep + y;
    assert c[b..e] == f + sep + y;
    assert c[g..] == f;
  }

  /** The content with its amounts removed. */
  lemma AmountsRemoved(t: string, x: string, y: string, f: string, c: string)
    requires t == "Payment successful" && x == "You paid $12.34 at Starbucks" && c == t + " | " + x + " | " + x
    requires y == "You paid " && f == " at Starbucks"
    ensures StripAmounts(Current, c) == t + " | " + y + f + " | " + y + f
  {
    var d := t + " | " + y + f + " | " + y + f;
    PrefixAmountsLeave(t, x, y, f, c);
    StrippedKeepsSuffixes(t, y, f, d);
    StripInTwoSteps(c, d, d);
  }

  lemma StripInTwoSteps(s: string, p: string, r: string)
    requires DeleteAll(AmountPrefix, s) == p && DeleteAll(AmountSuffix, p) == r
    ensures StripAmounts(Current, s) == r
  {
  }

  lemma PrefixAmountsLeave(t: string, x: string, y: string, f: string, c: string)
    requires t == "Payment successful" && x == "You paid $12.34 at Starbucks" && c == t + " | " + x + " | " + x
    requires y == "You paid " && f == " at Starbucks"
    ensures DeleteAll(AmountPrefix, c) == t + " | " + y + f + " | " + y + f
  {
    PrefixAmountsRemoved(t, x, c);
    TextPieces(x, y, f);
    CutMiddles(t, " | ", y, "$12.34", f);
  }

  lemma StrippedKeepsSuffixes(t: string, y: string, f: string, d: string)
    requires t == "Payment successful" && y == "You paid " && f == " at Starbucks" && d == t + " | " + y + f + " | " + y + f
    ensures DeleteAll(AmountSuffix, d) == d
  {
    assert DigitFree(t) && DigitFree(" | ") && DigitFree(y) && DigitFree(f);
    DigitFreeConcat(t, " | ");
    DigitFreeConcat(t + " | ", y);
    DigitFreeConcat(t + " | " + y, f);
    DigitFreeConcat(t + " | " + y + f, " | ");
    DigitFreeConcat(t + " | " + y + f + " | ", y);
    DigitFreeConcat(t + " | " + y + f + " | " + y, f);
    DigitFreeKeepsSuffixRemoval(d);
  }

  lemma StrippedIsTrimmed(t: string, y: string, f: string, d: string)
    requires t == "Payment successful" && y == "You paid " && f == " at Starbucks" && d == t + " | " + y + f + " | " + y + f
    ensures Trim(d) == d
  {
    assert IsTrimSpan(d, 0, |d|);
    TrimIsUnique(d, 0, |d|);
    assert d[0..|d|] == d;
  }

  /** The text the hints are searched in. */
  lemma CleanedContent(t: string, x: string, y: string, f: string)
    requires t == "Payment successful" && x == "You paid $12.34 at Starbucks"
    requires y == "You paid " && f == " at Starbucks"
    ensures Cleaned(Current, t, x, x, "") == t + " | " + y + f + " | " + y + f
  {
    ContentJoinsThreeParts(t, x);
    AmountsRemoved(t, x, y, f, t + " | " + x + " | " + x);
    StrippedIsTrimmed(t, y, f, t + " | " + y + f + " | " + y + f);
  }

  /** The only `a` chars before the " at " of the first copy are followed by no `t`. */
  lemma NoAtHintBefore(t: string, y: string, f: string, d: string)
    requires t == "Payment successful" && y == "You paid " && f == " at Starbucks" && d == t + " | " + y + f + " | " + y + f
    ensures forall j :: 0 <= j < 31 ==> MatchAt(HintPattern(At), d, j).None?
  {
    assert forall j :: 0 <= j < 31 && j != 1 && j != 26 ==> ToLower(d[j]) != 'a';
    assert ToLower(d[2]) != 't' && ToLower(d[27]) != 't';
    forall j | 0 <= j < 31
      ensures MatchAt(HintPattern(At), d, j).None?
    {
      assert !HintWordAt(At, d, j) by {
        var w := HintWord(At);
        assert w[0] == 'a' && w[1] == 't' && IsLatin(At);
        if j == 1 || j == 26 {
          assert ToLower(d[j + 1]) != w[1];
        } else {
          assert ToLower(d[j + 0]) != w[0];
        }
      }
    }
  }

  lemma AtHintWord(t: string, y: string, f: string, d: string)
    requires t == "Payment successful" && y == "You paid " && f == " at Starbucks" && d == t + " | " + y + f + " | " + y + f
    ensures HintWordAt(At, d, 31) && IsWordBoundary(d, 31)
    ensures Run(Spaces, d, 33) == 1
  {
    assert HintWordAt(At, d, 31);
    assert Run(Spaces, d, 34) == 0;
  }

  lemma AtCapture(t: string, y: string, f: string, d: string)
    requires t == "Payment successful" && y == "You paid " && f == " at Starbucks" && d == t + " | " + y + f + " | " + y + f
    ensures CaptureAt(HintChars, d, 31, 34) == Some(Match(31, 34, 44, 44))
    ensures d[34..44] == "Starbucks" + " "
  {
    assert AllIn(HintChars, d, 34, 44) && !InClass(HintChars, d[44]);
    RunIsLongest(HintChars, d, 34, 44);
  }

  /** "at" hints at "Starbucks " in the cleaned text, which `trimMerchant` makes "Starbucks". */
  lemma AtHintCandidate(t: string, y: string, f: string, d: string)
    requires t == "Payment successful" && y == "You paid " && f == " at Starbucks" && d == t + " | " + y + f + " | " + y + f
    ensures HintCandidate(At, d) == Some("Starbucks")
  {
    AtHintWord(t, y, f, d);
    AtCapture(t, y, f, d);
    assert SpacesThenCapture(HintChars, d, 31, 33, 1) == Some(Match(31, 34, 44, 44));
    assert HintAt(At, d, 31) == SpacesThenCapture(HintChars, d, 31, 33, 1);
    NoAtHintBefore(t, y, f, d);
    FindReturnsFirst(HintPattern(At), d, 0, 31);
    StarbucksTrimmed("Starbucks", " ");
  }

  lemma StarbucksTrimmed(n: string, b: string)
    requires n == "Starbucks" && b == " "
    ensures TrimMerchant(n + b) == n
  {
    TrimMerchantDropsTrailingBlanks(n, b);
  }

  /** `parseMerchant` takes the "at" hint: "Starbucks". */
  lemma MerchantIsStarbucks(t: string, x: string)
    requires t == "Payment successful" && x == "You paid $12.34 at Starbucks"
    ensures ParseMerchant(Current, t, x, x, "") == Some("Starbucks")
  {
    var y, f := "You paid ", " at Starbucks";
    CleanedContent(t, x, y, f);
    var d := t + " | " + y + f + " | " + y + f;
    AtHintCandidate(t, y, f, d);
    assert Candidates(d, HintOrder)[0] == Some("Starbucks");
    ParseMerchantTakesHint(Current, t, x, x, "");
  }

  // ---------------------------------------------------------------------------
  // The listener

  /** What the listener reads from the test extras: the gate passes, 1234 cents, "Starbucks". */
  lemma TestExtrasParsed(t: string, x: string)
    requires t == "Payment successful" && x == "You paid $12.34 at Starbucks"
    ensures var e := Extras(t, x, x, []);
      && ContainsPaymentKeyword(Current, Some(Content(Current, e)))
      && ParseAmount(Current, Content(Current, e)) == Some(1234)
      && MerchantOf(Current, e) == Some("Starbucks")
  {
    ContentJoinsThreeParts(t, x);
    ContentPassesGate(t, x, t + " | " + x + " | " + x);
    ContentAmountIsCents(t, x, t + " | " + x + " | " + x);
    MerchantIsStarbucks(t, x);
  }

  /**
    The test notification, posted with flags 0 while tracking is enabled, is stored with its
    post time, merchant "Starbucks" and 1234 minor units; the package and its label play no part.
   */
  lemma TestNotificationIsRecorded(t: string, x: string, appLabel: Option<string>, pkg: string, time: int)
    requires t == "Payment successful" && x == "You paid $12.34 at Starbucks"
    ensures OnPostedCurrent(true, appLabel, Some(Posted(pkg, time, Some(Notification(0, Some(Extras(t, x, x, []))))))) ==
      Some(Record(time, "Starbucks", 1234))
  {
    TestExtrasParsed(t, x);
    ParsedExtrasRecorded(appLabel, Posted(pkg, time, Some(Notification(0, Some(Extras(t, x, x, []))))), Extras(t, x, x, []));
    assert !IsSkippedKind(0);
  }

  /** Extras that pass the gate with an amount and a merchant are stored with both, whatever the package. */
  lemma ParsedExtrasRecorded(appLabel: Option<string>, p: Posted, e: Extras)
    requires ContainsPaymentKeyword(Current, Some(Content(Current, e)))
    requires ParseAmount(Current, Content(Current, e)) == Some(1234) && MerchantOf(Current, e) == Some("Starbucks")
    ensures CurrentRecordOf(appLabel, p, e) == Some(Record(p.postTime, "Starbucks", 1234))
  {
  }
}
