/**
  The listener's fixed regular expressions, one hand-written matcher each, and the two
  `java.util.regex.Matcher` operations the listener uses on them: `find()` (the leftmost
  match) and `replaceAll("")` (delete every non-overlapping match, left to right).

  `MatchAt(p, s, i)` is the match Java's backtracking matcher returns when it tries
  pattern `p` at start position `i` of the whole input `s` (so `\b` and `$` see the chars
  around `i`). None of the patterns matches the empty string.
 */
module Patterns {
  import opened Chars
  import opened Spans
  import opened Numbers
  import opened Wrappers

  /** The merchant hint keywords, in the order the listener tries them. */
  datatype Hint = At | To | With | Xiang | Gei  // Xiang is 向 ("towards"), Gei is 给 ("to, for")

  datatype Pattern =
    | AmountPrefix     // current revision's AMOUNT_PREFIX
    | AmountSuffix     // current revision's AMOUNT_SUFFIX
    | AmountLegacy     // legacy revision's AMOUNT_PATTERN
    | HintPattern(hint: Hint)  // one entry of MERCHANT_HINTS
    | TrailingNoise    // `\s+\-*\s*$`, used by trimMerchant

  /** A match `s[start..end]` whose capture group 1 is `s[groupStart..groupEnd]`. */
  datatype Match = Match(start: nat, groupStart: nat, groupEnd: nat, end: nat)

  predicate WellFormed(m: Match, s: string) {
    m.start <= m.groupStart <= m.groupEnd <= m.end <= |s| && m.start < m.end
  }

  /** The single-token currency markers of AMOUNT_PREFIX, in alternation order; `AUD\s*` comes last. */
  const PrefixSymbols: seq<string> := ["A$", "AU$", "$", "₹", "€", "£", "¥"]

  /** The currency codes AMOUNT_SUFFIX accepts after a number. */
  const CurrencyCodes: seq<string> := ["AUD", "USD", "CNY", "RMB", "INR", "EUR", "GBP", "JPY"]

  /** Bounds of the `{2,60}` merchant capture. */
  const CaptureMin: nat := 2
  const CaptureMax: nat := 60

  function Min(a: nat, b: nat): nat { if a <= b then a else b }

  // ---------------------------------------------------------------------------
  // Amounts

  /** The first symbol of `symbols` that occurs at `i`, as the end of that occurrence. */
  function SymbolEnd(s: string, i: nat, symbols: seq<string>): Option<nat> {
    if symbols == [] then None
    else if HasAt(s, i, symbols[0]) then Some(i + |symbols[0]|)
    else SymbolEnd(s, i, symbols[1..])
  }

  /** `SymbolEnd` finds the end of an occurrence of one of the symbols, and finds one whenever one occurs. */
  lemma {:induction false} SymbolEndIsSymbol(s: string, i: nat, symbols: seq<string>)
    ensures var r := SymbolEnd(s, i, symbols);
      && (r.Some? ==> exists k :: 0 <= k < |symbols| && HasAt(s, i, symbols[k]) && r.value == i + |symbols[k]|)
      && (r.None? ==> forall k :: 0 <= k < |symbols| ==> !HasAt(s, i, symbols[k]))
  {
    if symbols != [] && !HasAt(s, i, symbols[0]) {
      SymbolEndIsSymbol(s, i, symbols[1..]);
      var r := SymbolEnd(s, i, symbols);
      if r.Some? {
        var k :| 0 <= k < |symbols[1..]| && HasAt(s, i, symbols[1..][k]) && r.value == i + |symbols[1..][k]|;
        assert symbols[1..][k] == symbols[k + 1];
      } else {
        forall k | 0 <= k < |symbols|
          ensures !HasAt(s, i, symbols[k])
        {
          if k > 0 {
            assert symbols[k] == symbols[1..][k - 1];
          }
        }
      }
    }
  }

  /** The end of `A\$|AU\$|\$|₹|€|£|¥|AUD\s*` at `i`, alternatives in order. */
  function MarkerEnd(s: string, i: nat): (r: Option<nat>)
    requires i <= |s|
    ensures r.Some? ==> i < r.value <= |s|
  {
    SymbolEndIsSymbol(s, i, PrefixSymbols);
    match SymbolEnd(s, i, PrefixSymbols)
    case Some(m) => Some(m)
    case None => if HasAt(s, i, "AUD") then Some(i + 3 + Run(Spaces, s, i + 3)) else None
  }

  /** `(?:A\$|AU\$|\$|₹|€|£|¥|AUD\s*)\s*(<number>)` at `i`. */
  function PrefixAt(s: string, i: nat): Option<Match>
    requires i <= |s|
  {
    match MarkerEnd(s, i)
    case None => None
    case Some(m) => NumberAfterMarker(s, i, m)
  }

  /** The rest of AMOUNT_PREFIX once the marker `s[i..m]` is taken: `\s*(<number>)`. */
  function NumberAfterMarker(s: string, i: nat, m: nat): Option<Match>
    requires i <= m <= |s|
  {
    var j := m + Run(Spaces, s, m);
    match NumberEnd(s, j)
    case None => None
    case Some(e) => Some(Match(i, j, e, e))
  }

  /** `c` is one of `words`, tried in order. */
  predicate IsOneOf(c: string, words: seq<string>) {
    words != [] && (c == words[0] || IsOneOf(c, words[1..]))
  }

  lemma {:induction false} IsOneOfIff(c: string, words: seq<string>)
    ensures IsOneOf(c, words) <==> exists k :: 0 <= k < |words| && words[k] == c
  {
    if words != [] {
      IsOneOfIff(c, words[1..]);
      if IsOneOf(c, words[1..]) {
        var k :| 0 <= k < |words[1..]| && words[1..][k] == c;
        assert words[k + 1] == c;
      }
      if exists k :: 0 <= k < |words| && words[k] == c {
        var k :| 0 <= k < |words| && words[k] == c;
        if k > 0 {
          assert words[1..][k - 1] == c;
        }
      }
    }
  }

  /** One of the currency codes occupies `s[m..m + 3]`. */
  predicate IsCodeAt(s: string, m: nat) {
    m + 3 <= |s| && IsOneOf(s[m..m + 3], CurrencyCodes)
  }

  /** `(<number>)\s*(?:AUD|USD|CNY|RMB|INR|EUR|GBP|JPY)\b` at `i`. */
  function SuffixAt(s: string, i: nat): Option<Match>
    requires i <= |s|
  {
    match NumberEnd(s, i)
    case None => None
    case Some(e) => CodeAfterNumber(s, i, e)
  }

  /** `\s*(?:AUD|USD|...)\b` after the number group `s[i..e]`. */
  function CodeAfterNumber(s: string, i: nat, e: nat): Option<Match>
    requires i <= e <= |s|
  {
    var m := e + Run(Spaces, s, e);
    if IsCodeAt(s, m) && IsWordBoundary(s, m + 3) then Some(Match(i, i, e, m + 3)) else None
  }

  /** Where the greedy `(?:AUD\s*)?` that starts at `i` stops. */
  function LegacyCodeEnd(s: string, i: nat): (a: nat)
    requires i <= |s|
    ensures i <= a <= |s|
  {
    if HasAt(s, i, "AUD") then i + 3 + Run(Spaces, s, i + 3) else i
  }

  /** Where the greedy `(?:AUD\s*)?\$?\s*` that starts at `i` stops: the legacy group's start. */
  function LegacyGroupStart(s: string, i: nat): (j: nat)
    requires i <= |s|
    ensures i <= j <= |s|
  {
    var a := LegacyCodeEnd(s, i);
    var b := if a < |s| && s[a] == '$' then a + 1 else a;
    b + Run(Spaces, s, b)
  }

  /** `(?:AUD\s*)?\$?\s*(<legacy number>)` at `i`: each optional part is taken when present. */
  function LegacyAt(s: string, i: nat): Option<Match>
    requires i <= |s|
  {
    var j := LegacyGroupStart(s, i);
    match LegacyNumberEnd(s, j)
    case None => None
    case Some(e) => Some(Match(i, j, e, e))
  }

  // ---------------------------------------------------------------------------
  // Merchant hints

  function HintWord(h: Hint): string {
    match h
    case At => "at"
    case To => "to"
    case With => "with"
    case Xiang => "向"
    case Gei => "给"
  }

  /** The English hints are compiled with CASE_INSENSITIVE and start with `\b`, and their capture is `\s+`-separated. */
  predicate IsLatin(h: Hint) { h.At? || h.To? || h.With? }

  function HintClass(h: Hint): CharClass {
    if IsLatin(h) then HintChars else HanHintChars
  }

  /** The hint word occurs at `i`; for the English words ASCII case is ignored. */
  predicate HintWordAt(h: Hint, s: string, i: nat) {
    var w := HintWord(h);
    i + |w| <= |s| &&
    forall k :: 0 <= k < |w| ==> (if IsLatin(h) then ToLower(s[i + k]) else s[i + k]) == w[k]
  }

  /** The greedy `{2,60}` capture of `cls` chars at `g`, if it has at least two chars. */
  function CaptureAt(cls: CharClass, s: string, i: nat, g: nat): (r: Option<Match>)
    requires i <= g <= |s|
    ensures r.Some? ==> WellFormed(r.value, s) && r.value.start == i && r.value.groupStart == g
  {
    var c := Run(cls, s, g);
    if c >= CaptureMin then Some(Match(i, g, g + Min(CaptureMax, c), g + Min(CaptureMax, c))) else None
  }

  /**
    `\s+` over `s[p..p + n]` followed by the capture, trying the `\s+` lengths n, n-1, ..., 1:
    the order in which Java's backtracking gives whitespace back to the capture.
   */
  function SpacesThenCapture(cls: CharClass, s: string, i: nat, p: nat, n: nat): (r: Option<Match>)
    requires i <= p && 1 <= n && p + n <= |s|
    ensures r.Some? ==> WellFormed(r.value, s) && r.value.start == i
    decreases n
  {
    match CaptureAt(cls, s, i, p + n)
    case Some(m) => Some(m)
    case None => if n == 1 then None else SpacesThenCapture(cls, s, i, p, n - 1)
  }

  /** `\b<word>\s+(<class>{2,60})` for the English hints, `<word>(<class>{2,60})` for the Chinese ones. */
  function HintAt(h: Hint, s: string, i: nat): (r: Option<Match>)
    requires i <= |s|
    ensures r.Some? ==> WellFormed(r.value, s) && r.value.start == i
  {
    var p := i + |HintWord(h)|;
    if !HintWordAt(h, s, i) then None
    else if IsLatin(h) then
      var n := Run(Spaces, s, p);
      if IsWordBoundary(s, i) && n >= 1 then SpacesThenCapture(HintClass(h), s, i, p, n) else None
    else CaptureAt(HintClass(h), s, i, p)
  }

  // ---------------------------------------------------------------------------
  // Trailing noise of a merchant name

  /** `\s+\-*\s*$` at `i`: each part greedy, then the end anchor. */
  function TrailingNoiseAt(s: string, i: nat): Option<Match>
    requires i <= |s|
  {
    var k := Run(Spaces, s, i);
    var d := Run(Dashes, s, i + k);
    var t := Run(Spaces, s, i + k + d);
    var p := i + k + d + t;
    if k >= 1 && IsEndAnchor(s, p) then Some(Match(i, i, p, p)) else None
  }

  // ---------------------------------------------------------------------------
  // The Matcher operations

  function MatchAt(pat: Pattern, s: string, i: nat): (r: Option<Match>)
    requires i <= |s|
    ensures r.Some? ==> WellFormed(r.value, s) && r.value.start == i
  {
    match pat
    case AmountPrefix =>
      var r := PrefixAt(s, i);
      assert r.Some? ==> MarkerEnd(s, i).Some?;
      r
    case AmountSuffix => SuffixAt(s, i)
    case AmountLegacy => LegacyAt(s, i)
    case HintPattern(h) => HintAt(h, s, i)
    case TrailingNoise => TrailingNoiseAt(s, i)
  }

  /** `Matcher.find()` from position `from`: the match at the leftmost start that has one. */
  function Find(pat: Pattern, s: string, from: nat): (r: Option<Match>)
    requires from <= |s|
    ensures r.Some? ==> WellFormed(r.value, s) && from <= r.value.start
    ensures r.Some? ==> MatchAt(pat, s, r.value.start) == r
    ensures r.Some? ==> forall i :: from <= i < r.value.start ==> MatchAt(pat, s, i).None?
    ensures r.None? ==> forall i :: from <= i <= |s| ==> MatchAt(pat, s, i).None?
    decreases |s| - from
  {
    var here := MatchAt(pat, s, from);
    if here.Some? then here
    else if from == |s| then None
    else
      var r := Find(pat, s, from + 1);
      NoMatchExtendsLeft(pat, s, from, r);
      r
  }

  /** `find()` from `from` returns the match at the first start that has one. */
  lemma FindReturnsFirst(pat: Pattern, s: string, from: nat, i: nat)
    requires from <= i <= |s| && MatchAt(pat, s, i).Some?
    requires forall j :: from <= j < i ==> MatchAt(pat, s, j).None?
    ensures Find(pat, s, from) == MatchAt(pat, s, i)
  {
    var r := Find(pat, s, from);
    assert r.Some?;
    assert r.value.start == i;
  }

  /** A search that found nothing at `from` and then `r` from `from + 1` found `r` from `from`. */
  lemma NoMatchExtendsLeft(pat: Pattern, s: string, from: nat, r: Option<Match>)
    requires from < |s| && MatchAt(pat, s, from).None?
    requires r.Some? ==> from + 1 <= r.value.start <= |s| && forall i :: from + 1 <= i < r.value.start ==> MatchAt(pat, s, i).None?
    requires r.None? ==> forall i :: from + 1 <= i <= |s| ==> MatchAt(pat, s, i).None?
    ensures r.Some? ==> forall i :: from <= i < r.value.start ==> MatchAt(pat, s, i).None?
    ensures r.None? ==> forall i :: from <= i <= |s| ==> MatchAt(pat, s, i).None?
  {
  }

  /**
    `Matcher.replaceAll("")` continued from `from`: the text between successive matches,
    each search resuming where the previous match ended.
   */
  function DeleteFrom(pat: Pattern, s: string, from: nat): (r: string)
    requires from <= |s|
    ensures |r| <= |s| - from
    ensures multiset(r) <= multiset(s[from..])
    ensures Find(pat, s, from).None? ==> r == s[from..]
    ensures Find(pat, s, from).Some? ==> |r| < |s| - from
    ensures Find(pat, s, from).Some? ==>
      var m := Find(pat, s, from).value; r == s[from..m.start] + DeleteFrom(pat, s, m.end)
    decreases |s| - from
  {
    match Find(pat, s, from)
    case None => s[from..]
    case Some(m) =>
      var rest := DeleteFrom(pat, s, m.end);
      SkippingASliceShrinks(s, from, m.start, m.end, rest);
      s[from..m.start] + rest
  }

  lemma SkippingASliceShrinks(s: string, a: nat, b: nat, c: nat, rest: string)
    requires a <= b <= c <= |s|
    requires multiset(rest) <= multiset(s[c..])
    ensures multiset(s[a..b] + rest) <= multiset(s[a..])
  {
    assert s[a..] == s[a..b] + s[b..c] + s[c..];
  }

  /** `pattern.matcher(s).replaceAll("")`. */
  function DeleteAll(pat: Pattern, s: string): (r: string)
    ensures |r| <= |s|
    ensures multiset(r) <= multiset(s)
    ensures Find(pat, s, 0).None? ==> r == s
    ensures Find(pat, s, 0).Some? ==> |r| < |s|
    ensures Find(pat, s, 0).Some? ==>
      var m := Find(pat, s, 0).value; r == s[..m.start] + DeleteFrom(pat, s, m.end)
  {
    assert s[0..] == s;
    DeleteFrom(pat, s, 0)
  }
}
