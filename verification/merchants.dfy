/**
  `trimMerchant` and `parseMerchant`: the merchant name taken from a hint keyword
  ("at", "to", "with", "向", "给") in the content with its amounts removed, or else from
  the title with its amounts removed.
 */
module Merchants {
  import opened Chars
  import opened Spans
  import opened Text
  import opened Patterns
  import opened NoiseLanguage
  import opened Config
  import opened Amounts
  import opened AmountLanguage
  import opened Wrappers

  // ---------------------------------------------------------------------------
  // trimMerchant

  /** The separator chars `trimMerchant` blanks out: `|`, `•` and `…`. */
  predicate IsSeparatorNoise(c: char) {
    c == '|' || c == '•' || c == '…'
  }

  function BlankSeparators(s: string): (r: string)
    ensures |r| == |s|
    ensures forall k :: 0 <= k < |s| ==> r[k] == if IsSeparatorNoise(s[k]) then ' ' else s[k]
  {
    ReplaceChar(ReplaceChar(ReplaceChar(s, '|', ' '), '•', ' '), '…', ' ')
  }

  lemma MatchAtNoiseIsTrailingNoiseAt(s: string, i: nat)
    requires i <= |s|
    ensures MatchAt(TrailingNoise, s, i) == TrailingNoiseAt(s, i)
  {
  }

  /** Removing trailing noise from a string that does not start with whitespace keeps its first char. */
  lemma NoiseRemovalKeepsHead(t: string)
    requires t != [] && !IsSpace(t[0])
    ensures DeleteAll(TrailingNoise, t) != [] && DeleteAll(TrailingNoise, t)[0] == t[0]
  {
    RemoveNoiseCutsFirstMatch(t);
    var f := Find(TrailingNoise, t, 0);
    if f.Some? {
      MatchAtNoiseIsTrailingNoiseAt(t, 0);
      assert f.value.start != 0;
    }
  }

  /**
    `trimMerchant(s)`: separators blanked, surrounding blanks trimmed, one trailing
    `\s+\-*\s*$` removed, and the result cut to 60 chars.
   */
  function TrimMerchant(s: string): (r: string)
    ensures |r| <= MaxMerchantLength
    ensures forall c :: c in r ==> !IsSeparatorNoise(c) && (c == ' ' || c in s)
    ensures r == [] <==> forall k :: 0 <= k < |s| ==> IsTrimmable(s[k]) || IsSeparatorNoise(s[k])
    ensures r != [] ==> !IsTrimmable(r[0])
  {
    var b := BlankSeparators(s);
    var t := Trim(b);
    var u := DeleteAll(TrailingNoise, t);
    var r := if |u| > MaxMerchantLength then u[..MaxMerchantLength] else u;
    TrimMerchantFacts(s, b, t, u, r);
    r
  }

  /**
    The noise step of `trimMerchant`, on the trimmed text `t` with separators blanked: the
    leftmost match of `\s+\-*\s*$` is cut out, and it runs to the end of `t` or stops before
    a final line terminator, which stays. Without a match `t` is kept whole. The result is
    that text cut to 60 chars.
   */
  lemma TrimMerchantCutsNoise(s: string)
    ensures var t := Trim(BlankSeparators(s));
      var u := DeleteAll(TrailingNoise, t);
      && TrimMerchant(s) == (if |u| > MaxMerchantLength then u[..MaxMerchantLength] else u)
      && CutsTrailingNoise(t, u)
  {
    var t := Trim(BlankSeparators(s));
    TrimTail(BlankSeparators(s));
    NoiseRemovalCutsTail(t);
  }

  /**
    `u` is `t` without its leftmost match of `\s+\-*\s*$`, if it has one; that match runs
    to the end of `t` or stops before a final line terminator.
   */
  ghost predicate CutsTrailingNoise(t: string, u: string) {
    && (Find(TrailingNoise, t, 0).None? ==> u == t && forall i: nat, p: nat :: !IsTrailingNoise(t, i, p))
    && (Find(TrailingNoise, t, 0).Some? ==>
          var m := Find(TrailingNoise, t, 0).value;
          && IsTrailingNoise(t, m.start, m.end)
          && (forall i: nat, p: nat :: i < m.start ==> !IsTrailingNoise(t, i, p))
          && u == t[..m.start] + t[m.end..]
          && (m.end == |t| || (m.end + 1 == |t| && IsLineTerminator(t[m.end]))))
  }

  /** Noise removal on a text that is empty or ends above `' '`. */
  lemma NoiseRemovalCutsTail(t: string)
    requires t != [] ==> !IsTrimmable(t[|t| - 1])
    ensures CutsTrailingNoise(t, DeleteAll(TrailingNoise, t))
  {
    RemoveNoiseCutsFirstMatch(t);
    var f := Find(TrailingNoise, t, 0);
    NoNoiseBeforeFound(t);
    if f.Some? {
      MatchAtNoiseIsTrailingNoiseAt(t, f.value.start);
      NoiseReachesEnd(t, f.value.start);
      FoundNoiseIsNoise(t);
    }
  }

  /** `find()` for trailing noise stops at the first start where the pattern has a match. */
  lemma NoNoiseBeforeFound(t: string)
    ensures var f := Find(TrailingNoise, t, 0);
      forall i: nat, p: nat :: (f.None? || i < f.value.start) ==> !IsTrailingNoise(t, i, p)
  {
    var f := Find(TrailingNoise, t, 0);
    forall i: nat, p: nat | (f.None? || i < f.value.start) && IsTrailingNoise(t, i, p)
      ensures false
    {
      TrailingNoiseAtIsJavaMatch(t, i);
      MatchAtNoiseIsTrailingNoiseAt(t, i);
    }
  }

  /** In a text that ends above `' '`, trailing noise ends at the end or before a final line terminator. */
  lemma NoiseReachesEnd(t: string, i: nat)
    requires i <= |t| && TrailingNoiseAt(t, i).Some? && !IsTrimmable(t[|t| - 1])
    ensures var p := TrailingNoiseAt(t, i).value.end;
      p == |t| || (p + 1 == |t| && IsLineTerminator(t[p]))
  {
    var p := TrailingNoiseAt(t, i).value.end;
    assert IsEndAnchor(t, p);
  }

  lemma FoundNoiseIsNoise(t: string)
    requires Find(TrailingNoise, t, 0).Some?
    ensures var m := Find(TrailingNoise, t, 0).value; IsTrailingNoise(t, m.start, m.end)
  {
    var m := Find(TrailingNoise, t, 0).value;
    MatchAtNoiseIsTrailingNoiseAt(t, m.start);
    TrailingNoiseAtIsJavaMatch(t, m.start);
  }

  lemma TrimMerchantFacts(s: string, b: string, t: string, u: string, r: string)
    requires b == BlankSeparators(s) && t == Trim(b) && u == DeleteAll(TrailingNoise, t)
    requires r == if |u| > MaxMerchantLength then u[..MaxMerchantLength] else u
    ensures forall c :: c in r ==> !IsSeparatorNoise(c) && (c == ' ' || c in s)
    ensures r == [] <==> forall k :: 0 <= k < |s| ==> IsTrimmable(s[k]) || IsSeparatorNoise(s[k])
    ensures r != [] ==> !IsTrimmable(r[0])
  {
    TrimMerchantKeepsChars(s, b, t, u, r);
    TrimMerchantHead(b, t, u, r);
    BlankSeparatorsBlankIff(s);
  }

  lemma TrimMerchantKeepsChars(s: string, b: string, t: string, u: string, r: string)
    requires b == BlankSeparators(s) && t == Trim(b) && u == DeleteAll(TrailingNoise, t)
    requires r == if |u| > MaxMerchantLength then u[..MaxMerchantLength] else u
    ensures forall c :: c in r ==> !IsSeparatorNoise(c) && (c == ' ' || c in s)
  {
    BlankSeparatorsChars(s);
    TrimKeepsChars(b);
    DeleteKeepsChars(t, u);
    CutKeepsChars(u, r);
  }

  /** Blanking the separators leaves blanks and chars of `s` that are no separators. */
  lemma BlankSeparatorsChars(s: string)
    ensures forall c :: c in BlankSeparators(s) ==> !IsSeparatorNoise(c) && (c == ' ' || c in s)
  {
    var b := BlankSeparators(s);
    forall c | c in b
      ensures !IsSeparatorNoise(c) && (c == ' ' || c in s)
    {
      var k :| 0 <= k < |b| && b[k] == c;
    }
  }

  lemma DeleteKeepsChars(t: string, u: string)
    requires u == DeleteAll(TrailingNoise, t)
    ensures forall c :: c in u ==> c in t
  {
    forall c | c in u
      ensures c in t
    {
      assert c in multiset(u);
    }
  }

  lemma CutKeepsChars(u: string, r: string)
    requires r == if |u| > MaxMerchantLength then u[..MaxMerchantLength] else u
    ensures forall c :: c in r ==> c in u
  {
    if |u| > MaxMerchantLength {
      SliceCharsIn(u, 0, MaxMerchantLength);
      assert u[0..MaxMerchantLength] == r;
    }
  }

  /** The trimmed, noise-free text is empty exactly when the trimmed one is, and keeps its head. */
  lemma TrimMerchantHead(b: string, t: string, u: string, r: string)
    requires t == Trim(b) && u == DeleteAll(TrailingNoise, t)
    requires r == if |u| > MaxMerchantLength then u[..MaxMerchantLength] else u
    ensures r == [] <==> forall k :: 0 <= k < |b| ==> IsTrimmable(b[k])
    ensures r != [] ==> !IsTrimmable(r[0])
  {
    TrimIsEmptyIff(b);
    if t != [] {
      TrimHead(b);
      SpaceIsTrimmable(t[0]);
      NoiseRemovalKeepsHead(t);
      CutKeepsHead(u, r);
    } else {
      assert |u| <= |t|;
    }
  }

  lemma CutKeepsHead(u: string, r: string)
    requires r == if |u| > MaxMerchantLength then u[..MaxMerchantLength] else u
    requires u != []
    ensures r != [] && r[0] == u[0]
  {
  }

  lemma BlankSeparatorsBlankIff(s: string)
    ensures (forall k :: 0 <= k < |s| ==> IsTrimmable(BlankSeparators(s)[k])) <==>
      forall k :: 0 <= k < |s| ==> IsTrimmable(s[k]) || IsSeparatorNoise(s[k])
  {
    var b := BlankSeparators(s);
    forall k | 0 <= k < |s|
      ensures IsTrimmable(b[k]) <==> IsTrimmable(s[k]) || IsSeparatorNoise(s[k])
    {
      assert IsTrimmable(' ');
    }
  }

  /** A name of at most 60 chars with no blank and no separator is its own `trimMerchant`. */
  lemma TrimMerchantKeepsPlainName(s: string)
    requires |s| <= MaxMerchantLength
    requires forall k :: 0 <= k < |s| ==> !IsTrimmable(s[k]) && !IsSeparatorNoise(s[k])
    ensures TrimMerchant(s) == s
  {
    var b := BlankSeparators(s);
    assert b == s;
    if s != [] {
      assert IsTrimSpan(s, 0, |s|);
    } else {
      assert IsTrimSpan(s, 0, 0);
    }
    TrimIsUnique(s, 0, |s|);
    assert Trim(s) == s;
    forall j | 0 <= j <= |s|
      ensures MatchAt(TrailingNoise, s, j).None?
    {
      if j < |s| {
        SpaceIsTrimmable(s[j]);
      }
      NoNoiseAtNonSpace(s, j);
    }
    NothingToFind(TrailingNoise, s, 0);
    assert s[0..] == s;
  }

  /** Blanks and separators after a plain name, as a greedy capture leaves them, do not reach the merchant. */
  lemma TrimMerchantDropsTrailingBlanks(n: string, b: string)
    requires |n| <= MaxMerchantLength
    requires forall k :: 0 <= k < |n| ==> !IsTrimmable(n[k]) && !IsSeparatorNoise(n[k])
    requires forall k :: 0 <= k < |b| ==> IsTrimmable(b[k]) || IsSeparatorNoise(b[k])
    ensures TrimMerchant(n + b) == n
  {
    TrailingBlanksTrimAway(n, b);
    PlainNameIsItsTrim(n);
    SameTrimSameMerchant(n + b, n);
    TrimMerchantKeepsPlainName(n);
  }

  lemma TrailingBlanksTrimAway(n: string, b: string)
    requires forall k :: 0 <= k < |n| ==> !IsTrimmable(n[k]) && !IsSeparatorNoise(n[k])
    requires forall k :: 0 <= k < |b| ==> IsTrimmable(b[k]) || IsSeparatorNoise(b[k])
    ensures Trim(BlankSeparators(n + b)) == n
  {
    var s := n + b;
    var bs := BlankSeparators(s);
    assert forall k :: 0 <= k < |n| ==> bs[k] == n[k];
    assert forall k :: |n| <= k < |s| ==> IsTrimmable(bs[k]);
    if n != [] {
      assert IsTrimSpan(bs, 0, |n|);
    } else {
      assert IsTrimSpan(bs, 0, 0);
    }
    TrimIsUnique(bs, 0, |n|);
    assert bs[0..|n|] == n;
  }

  /** `trimMerchant` looks at its argument only through the trimmed text with separators blanked. */
  lemma SameTrimSameMerchant(s: string, t: string)
    requires Trim(BlankSeparators(s)) == Trim(BlankSeparators(t))
    ensures TrimMerchant(s) == TrimMerchant(t)
  {
  }

  lemma PlainNameIsItsTrim(n: string)
    requires forall k :: 0 <= k < |n| ==> !IsTrimmable(n[k]) && !IsSeparatorNoise(n[k])
    ensures Trim(BlankSeparators(n)) == n
  {
    assert BlankSeparators(n) == n;
    if n != [] {
      assert IsTrimSpan(n, 0, |n|);
    } else {
      assert IsTrimSpan(n, 0, 0);
    }
    TrimIsUnique(n, 0, |n|);
    assert n[0..|n|] == n;
  }

  /** Trailing noise starts with whitespace. */
  lemma NoNoiseAtNonSpace(s: string, j: nat)
    requires j <= |s| && (j < |s| ==> !IsSpace(s[j]))
    ensures MatchAt(TrailingNoise, s, j).None?
  {
    MatchAtNoiseIsTrailingNoiseAt(s, j);
    assert Run(Spaces, s, j) == 0;
  }

  // ---------------------------------------------------------------------------
  // Amount removal

  /** The content with its amounts removed: `replaceAll("")` with each amount pattern of the revision, in order. */
  function StripAmounts(rev: Revision, s: string): (r: string)
    ensures |r| <= |s| && multiset(r) <= multiset(s)
    ensures rev == Current ==> (r == s <==> Find(AmountPrefix, s, 0).None? && Find(AmountSuffix, s, 0).None?)
    ensures rev == Legacy ==> (r == s <==> Find(AmountLegacy, s, 0).None?)
  {
    match rev
    case Current => DeleteAll(AmountSuffix, DeleteAll(AmountPrefix, s))
    case Legacy => DeleteAll(AmountLegacy, s)
  }

  /** Text without a `.` holds no amount of the current revision, so its amount removal keeps it whole. */
  lemma StripWithoutPointKeepsText(s: string)
    requires '.' !in s
    ensures StripAmounts(Current, s) == s
  {
    forall j | 0 <= j <= |s|
      ensures MatchAt(AmountPrefix, s, j).None? && MatchAt(AmountSuffix, s, j).None?
    {
      MatchAtIffMember(s, j);
      assert !HasPrefixAmount(s, j) by {
        if HasPrefixAmount(s, j) {
          var g: nat, e: nat :| IsPrefixAmount(s, j, g, e);
          AmountNumberHasPoint(s, g, e);
          SliceCharsIn(s, g, e);
        }
      }
      assert !HasSuffixAmount(s, j);
    }
    NothingToFind(AmountPrefix, s, 0);
    NothingToFind(AmountSuffix, s, 0);
    assert s[0..] == s;
  }

  /** `replaceAll("")` continued from `from` keeps the text up to the match `find()` returns and resumes after it. */
  lemma DeleteFromStep(pat: Pattern, s: string, from: nat, m: Match)
    requires from <= |s| && Find(pat, s, from) == Some(m)
    ensures from <= m.start <= m.end <= |s|
    ensures DeleteFrom(pat, s, from) == s[from..m.start] + DeleteFrom(pat, s, m.end)
  {
  }

  /** From `from`, the next `$` amount with cents is what AMOUNT_PREFIX finds. */
  lemma DollarCentsFound(s: string, from: nat, i: nat, f: string)
    requires from <= i < |s| && s[i] == '$' && HasAt(s, i + 1, f) && IsCentsText(f)
    requires forall k :: from <= k < i ==> !IsMarkerHead(s[k])
    ensures Find(AmountPrefix, s, from) == Some(Match(i, i + 1, i + 1 + |f|, i + 1 + |f|))
  {
    CentsAfterDollar(s, i, f);
    DollarAmountFound(s, from, i, i + 1 + |f|);
  }

  /**
    `s` has a `$` at `i` followed by the cents text `f`, and no currency-marker char in
    `s[from..i]`.
   */
  predicate DollarCentsAfterGap(s: string, from: nat, i: nat, f: string) {
    && from <= i && i + 1 + |f| <= |s| && s[i] == '$' && s[i + 1..i + 1 + |f|] == f && IsCentsText(f)
    && MarkerFreeIn(s, from, i)
  }

  /** The same, with the amount given as a slice and the gap before it as a recursive fact. */
  lemma DollarCentsFoundIn(s: string, from: nat, i: nat, f: string)
    requires DollarCentsAfterGap(s, from, i, f)
    ensures Find(AmountPrefix, s, from) == Some(Match(i, i + 1, i + 1 + |f|, i + 1 + |f|))
  {
    MarkerFreeInMeans(s, from, i);
    SliceHasAt(s, i + 1, f);
    DollarCentsFound(s, from, i, f);
  }

  lemma SliceHasAt(s: string, p: nat, f: string)
    requires p + |f| <= |s| && s[p..p + |f|] == f
    ensures HasAt(s, p, f)
  {
    assert forall k :: 0 <= k < |f| ==> f[k] == s[p..p + |f|][k];
  }

  /** With no marker char left, `find()` finds nothing more. */
  lemma NoDollarFound(s: string, from: nat)
    requires from <= |s| && MarkerFreeIn(s, from, |s|)
    ensures Find(AmountPrefix, s, from).None?
  {
    MarkerFreeInMeans(s, from, |s|);
    NoDollarAmountFrom(s, from);
    NothingToFind(AmountPrefix, s, from);
  }

  /** `replaceAll("")` over a text in which `find()` finds exactly two matches. */
  lemma DeleteAroundTwoMatches(pat: Pattern, s: string, m1: Match, m2: Match)
    requires Find(pat, s, 0) == Some(m1) && m1.end <= |s| && Find(pat, s, m1.end) == Some(m2)
    requires m2.end <= |s| && Find(pat, s, m2.end).None?
    ensures m1.start <= m1.end <= m2.start <= m2.end <= |s|
    ensures DeleteAll(pat, s) == s[0..m1.start] + s[m1.end..m2.start] + s[m2.end..]
  {
    DeleteFromStep(pat, s, 0, m1);
    DeleteFromStep(pat, s, m1.end, m2);
    NothingToFind(pat, s, m2.end);
    GapsJoin(s, DeleteAll(pat, s), m1.start, m1.end, m2.start, m2.end, DeleteFrom(pat, s, m1.end), DeleteFrom(pat, s, m2.end));
  }

  lemma GapsJoin(s: string, r: string, a: nat, b: nat, c: nat, d: nat, y: string, z: string)
    requires a <= b <= c <= d <= |s|
    requires r == s[0..a] + y && y == s[b..c] + z && z == s[d..]
    ensures r == s[0..a] + s[b..c] + s[d..]
  {
  }

  /** Text without digits holds no amount with a currency code, so removing those keeps it whole. */
  lemma DigitFreeKeepsSuffixRemoval(s: string)
    requires DigitFree(s)
    ensures DeleteAll(AmountSuffix, s) == s
  {
    forall j | 0 <= j <= |s|
      ensures MatchAt(AmountSuffix, s, j).None?
    {
      if j < |s| {
        assert s[j] in s;
      }
      assert Run(Digits, s, j) == 0;
      if SuffixAt(s, j).Some? {
        SuffixAtHasNumber(s, j);
        assert false;
      }
    }
    NothingToFind(AmountSuffix, s, 0);
    assert s[0..] == s;
  }

  /** `t` holds no ASCII digit. */
  predicate DigitFree(t: string) {
    forall c :: c in t ==> !IsDigit(c)
  }

  /** Where the legacy pattern matches nowhere, there is no digit. */
  lemma NoLegacyMatchInBetween(s: string, from: nat, stop: nat)
    requires from <= stop <= |s|
    requires forall i :: from <= i < stop ==> MatchAt(AmountLegacy, s, i).None?
    ensures DigitFree(s[from..stop])
  {
    forall c | c in s[from..stop]
      ensures !IsDigit(c)
    {
      var k :| 0 <= k < stop - from && s[from..stop][k] == c;
      assert s[from + k] == c;
      if IsDigit(c) {
        LegacyDigitStartsMatch(s, from + k);
        MatchAtLegacyIsLegacyAt(s, from + k);
      }
    }
  }

  lemma DigitFreeConcat(a: string, b: string)
    requires DigitFree(a) && DigitFree(b)
    ensures DigitFree(a + b)
  {
    assert forall c :: c in a + b ==> c in a || c in b;
  }

  /** The text the legacy amount removal keeps holds no digit. */
  lemma {:induction false} LegacyDeleteRemovesDigits(s: string, from: nat)
    requires from <= |s|
    ensures DigitFree(DeleteFrom(AmountLegacy, s, from))
    decreases |s| - from
  {
    var f := Find(AmountLegacy, s, from);
    if f.None? {
      NoLegacyMatchInBetween(s, from, |s|);
      assert s[from..|s|] == s[from..];
    } else {
      var m := f.value;
      NoLegacyMatchInBetween(s, from, m.start);
      LegacyDeleteRemovesDigits(s, m.end);
      var rest := DeleteFrom(AmountLegacy, s, m.end);
      assert DeleteFrom(AmountLegacy, s, from) == s[from..m.start] + rest;
      DigitFreeConcat(s[from..m.start], rest);
    }
  }

  /** The legacy revision's amount removal leaves no ASCII digit behind. */
  lemma LegacyStripRemovesDigits(s: string)
    ensures DigitFree(StripAmounts(Legacy, s))
  {
    LegacyDeleteRemovesDigits(s, 0);
    assert s[0..] == s;
  }

  // ---------------------------------------------------------------------------
  // Hints

  /** What hint `h` proposes in `s`: `trimMerchant` of group 1 of its first match. */
  function HintCandidate(h: Hint, s: string): Option<string> {
    match Find(HintPattern(h), s, 0)
    case None => None
    case Some(m) => Some(TrimMerchant(s[m.groupStart..m.groupEnd]))
  }

  /** A candidate that names a merchant: present and not empty. */
  predicate IsName(c: Option<string>) {
    c.Some? && c.value != []
  }

  /** Hint `h` gives a merchant in `s`. */
  predicate Yields(h: Hint, s: string) {
    IsName(HintCandidate(h, s))
  }

  /** The first name among `cs[i..]`, if there is one. */
  function FirstName(cs: seq<Option<string>>, i: nat): (r: Option<string>)
    requires i <= |cs|
    ensures r.Some? ==> exists k :: (i <= k < |cs| && IsName(cs[k]) && r == cs[k] &&
      forall k2 :: i <= k2 < k ==> !IsName(cs[k2]))
    ensures r.None? ==> forall k :: i <= k < |cs| ==> !IsName(cs[k])
    decreases |cs| - i
  {
    if i == |cs| then None
    else if IsName(cs[i]) then cs[i]
    else FirstName(cs, i + 1)
  }

  /** What each hint proposes, in hint order. */
  function Candidates(s: string, hints: seq<Hint>): (cs: seq<Option<string>>)
    ensures |cs| == |hints| && forall k :: 0 <= k < |hints| ==> cs[k] == HintCandidate(hints[k], s)
  {
    seq(|hints|, k requires 0 <= k < |hints| => HintCandidate(hints[k], s))
  }

  /** The loop over the hints: the candidate of the first hint that yields one. */
  function FirstHint(s: string, hints: seq<Hint>): (r: Option<string>)
    ensures r.Some? ==> exists k :: (0 <= k < |hints| && Yields(hints[k], s) && r == HintCandidate(hints[k], s) &&
      forall k2 :: 0 <= k2 < k ==> !Yields(hints[k2], s))
    ensures r.None? ==> forall k :: 0 <= k < |hints| ==> !Yields(hints[k], s)
  {
    FirstName(Candidates(s, hints), 0)
  }

  // ---------------------------------------------------------------------------
  // parseMerchant

  /** The texts `parseMerchant` joins: the legacy revision has no text lines. */
  function MerchantParts(rev: Revision, title: string, text: string, big: string, lines: string): seq<string> {
    match rev
    case Current => [title, text, big, lines]
    case Legacy => [title, text, big]
  }

  /** The text the hints are searched in: the joined parts with amounts removed, trimmed. */
  function Cleaned(rev: Revision, title: string, text: string, big: string, lines: string): string {
    Trim(StripAmounts(rev, JoinNonBlank(Separator, MerchantParts(rev, title, text, big, lines))))
  }

  /** The title with amounts removed, trimmed: the fallback when no hint yields. */
  function TitleFallback(rev: Revision, title: string): string {
    Trim(StripAmounts(rev, title))
  }

  /**
    `parseMerchant(title, text, big[, lines])`. `None` stands for the current revision's
    `null`; the legacy revision answers "UnknownMerchant" instead.
   */
  function ParseMerchant(rev: Revision, title: string, text: string, big: string, lines: string): Option<string> {
    match FirstHint(Cleaned(rev, title, text, big, lines), HintOrder)
    case Some(c) => Some(c)
    case None =>
      var fallback := TitleFallback(rev, title);
      if fallback != [] then Some(TrimMerchant(fallback))
      else if rev == Legacy then Some(UnknownMerchant)
      else None
  }

  /** Some hint yields a merchant in `s`. */
  predicate SomeHintYields(s: string) {
    exists k :: 0 <= k < |HintOrder| && Yields(HintOrder[k], s)
  }

  /** When some hint yields a merchant, `parseMerchant` returns the candidate of the first such hint in hint order. */
  lemma ParseMerchantPrefersHints(rev: Revision, title: string, text: string, big: string, lines: string)
    requires SomeHintYields(Cleaned(rev, title, text, big, lines))
    ensures var r := ParseMerchant(rev, title, text, big, lines);
      var s := Cleaned(rev, title, text, big, lines);
      exists k :: 0 <= k < |HintOrder| && Yields(HintOrder[k], s) && r == HintCandidate(HintOrder[k], s) &&
        forall k2 :: 0 <= k2 < k ==> !Yields(HintOrder[k2], s)
  {
    var s := Cleaned(rev, title, text, big, lines);
    var k0 :| 0 <= k0 < |HintOrder| && Yields(HintOrder[k0], s);
    assert FirstHint(s, HintOrder).Some?;
    ParseMerchantTakesHint(rev, title, text, big, lines);
  }

  lemma ParseMerchantTakesHint(rev: Revision, title: string, text: string, big: string, lines: string)
    requires FirstHint(Cleaned(rev, title, text, big, lines), HintOrder).Some?
    ensures ParseMerchant(rev, title, text, big, lines) == FirstHint(Cleaned(rev, title, text, big, lines), HintOrder)
  {
  }

  /**
    When no hint yields, `parseMerchant` returns the trimmed title without amounts; if
    that is empty, nothing (current) or "UnknownMerchant" (legacy).
   */
  lemma ParseMerchantFallsBackToTitle(rev: Revision, title: string, text: string, big: string, lines: string)
    requires !SomeHintYields(Cleaned(rev, title, text, big, lines))
    ensures ParseMerchant(rev, title, text, big, lines) ==
      if TitleFallback(rev, title) != [] then Some(TrimMerchant(TitleFallback(rev, title)))
      else if rev == Legacy then Some(UnknownMerchant)
      else None
  {
    ParseMerchantWithoutHint(rev, title, text, big, lines);
  }

  lemma ParseMerchantWithoutHint(rev: Revision, title: string, text: string, big: string, lines: string)
    requires FirstHint(Cleaned(rev, title, text, big, lines), HintOrder).None?
    ensures ParseMerchant(rev, title, text, big, lines) ==
      if TitleFallback(rev, title) != [] then Some(TrimMerchant(TitleFallback(rev, title)))
      else if rev == Legacy then Some(UnknownMerchant)
      else None
  {
  }

  /**
    `parseMerchant` gives no merchant only in the current revision, and only when no hint
    yields and the title holds nothing but amounts and blanks.
   */
  lemma ParseMerchantNoneIff(rev: Revision, title: string, text: string, big: string, lines: string)
    ensures ParseMerchant(rev, title, text, big, lines).None? <==>
      (rev == Current && TitleFallback(rev, title) == [] && !SomeHintYields(Cleaned(rev, title, text, big, lines)))
  {
    var s := Cleaned(rev, title, text, big, lines);
    var f := FirstHint(s, HintOrder);
    if f.Some? {
      ParseMerchantTakesHint(rev, title, text, big, lines);
      var k :| 0 <= k < |HintOrder| && Yields(HintOrder[k], s) && f == HintCandidate(HintOrder[k], s);
      assert SomeHintYields(s);
    } else {
      assert !SomeHintYields(s);
      ParseMerchantWithoutHint(rev, title, text, big, lines);
    }
  }

  /** What `trimMerchant` guarantees of its result: at most 60 chars and no `|`, `•` or `…`. */
  predicate IsBoundedName(t: string) {
    |t| <= MaxMerchantLength && forall c :: c in t ==> !IsSeparatorNoise(c)
  }

  lemma HintCandidateIsBounded(h: Hint, s: string)
    ensures HintCandidate(h, s).Some? ==> IsBoundedName(HintCandidate(h, s).value)
  {
  }

  /** A merchant `parseMerchant` returns is at most 60 chars long and holds no `|`, `•` or `…`. */
  lemma ParseMerchantIsBounded(rev: Revision, title: string, text: string, big: string, lines: string)
    ensures var r := ParseMerchant(rev, title, text, big, lines);
      r.Some? ==> IsBoundedName(r.value)
  {
    var s := Cleaned(rev, title, text, big, lines);
    var r := ParseMerchant(rev, title, text, big, lines);
    var f := FirstHint(s, HintOrder);
    if f.Some? {
      var k :| 0 <= k < |HintOrder| && Yields(HintOrder[k], s) && f == HintCandidate(HintOrder[k], s);
      HintCandidateIsBounded(HintOrder[k], s);
      assert r == f;
    } else {
      var fb := TitleFallback(rev, title);
      if fb != [] {
        assert r == Some(TrimMerchant(fb));
      } else if rev == Legacy {
        assert r == Some(UnknownMerchant);
        UnknownMerchantIsBounded();
      }
    }
  }

  lemma UnknownMerchantIsBounded()
    ensures IsBoundedName(UnknownMerchant) && DigitFree(UnknownMerchant)
  {
    assert forall c :: c in UnknownMerchant ==> 'A' <= c <= 'z';
  }

  lemma TrimMerchantKeepsDigitFree(t: string)
    requires DigitFree(t)
    ensures DigitFree(TrimMerchant(t))
  {
  }

  lemma HintCandidateKeepsDigitFree(h: Hint, s: string)
    requires DigitFree(s)
    ensures HintCandidate(h, s).Some? ==> DigitFree(HintCandidate(h, s).value)
  {
    var f := Find(HintPattern(h), s, 0);
    if f.Some? {
      var m := f.value;
      SliceCharsIn(s, m.groupStart, m.groupEnd);
      TrimMerchantKeepsDigitFree(s[m.groupStart..m.groupEnd]);
    }
  }

  /** Trimming the legacy revision's amount-free text leaves it free of digits. */
  lemma LegacyCleanTextIsDigitFree(t: string)
    ensures DigitFree(Trim(StripAmounts(Legacy, t)))
  {
    LegacyStripRemovesDigits(t);
    TrimKeepsChars(StripAmounts(Legacy, t));
  }

  /** The first hint's candidate in a digit-free text is digit-free. */
  lemma FirstHintKeepsDigitFree(s: string)
    requires DigitFree(s)
    ensures FirstHint(s, HintOrder).Some? ==> DigitFree(FirstHint(s, HintOrder).value)
  {
    var f := FirstHint(s, HintOrder);
    if f.Some? {
      var k :| 0 <= k < |HintOrder| && Yields(HintOrder[k], s) && f == HintCandidate(HintOrder[k], s);
      HintCandidateKeepsDigitFree(HintOrder[k], s);
    }
  }

  /** The legacy title fallback is digit-free. */
  lemma LegacyFallbackIsDigitFree(title: string)
    ensures DigitFree(TrimMerchant(TitleFallback(Legacy, title)))
  {
    LegacyCleanTextIsDigitFree(title);
    TrimMerchantKeepsDigitFree(TitleFallback(Legacy, title));
  }

  /** A merchant found by the legacy revision never holds an ASCII digit: its amount removal takes them all. */
  lemma LegacyMerchantHasNoDigit(title: string, text: string, big: string)
    ensures var r := ParseMerchant(Legacy, title, text, big, []);
      r.Some? && DigitFree(r.value)
  {
    var s := Cleaned(Legacy, title, text, big, []);
    var f := FirstHint(s, HintOrder);
    LegacyCleanTextIsDigitFree(JoinNonBlank(Separator, MerchantParts(Legacy, title, text, big, [])));
    FirstHintKeepsDigitFree(s);
    if f.Some? {
      assert ParseMerchant(Legacy, title, text, big, []) == f;
    } else if TitleFallback(Legacy, title) != [] {
      LegacyFallbackIsDigitFree(title);
      assert ParseMerchant(Legacy, title, text, big, []) == Some(TrimMerchant(TitleFallback(Legacy, title)));
    } else {
      assert ParseMerchant(Legacy, title, text, big, []) == Some(UnknownMerchant);
      UnknownMerchantIsBounded();
    }
  }
}
