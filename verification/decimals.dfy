/**
  From a matched number group to an amount in minor units (cents).

  Both revisions run `group.replace(",", "")`, parse the result with `Double.parseDouble`
  and the current one stores `Math.round(amount * 100.0)`. The model computes the same
  integer exactly from the digits: for a number with at most two fraction digits,
  rounding the scaled double gives that integer for every realistic magnitude.
 */
module Decimals {
  import opened Chars
  import opened Spans
  import opened Numbers

  /** `String.replace(",", "")`. */
  function RemoveCommas(s: string): (r: string)
    ensures ',' !in r
    ensures |r| <= |s|
  {
    if s == [] then []
    else (if s[0] == ',' then [] else [s[0]]) + RemoveCommas(s[1..])
  }

  lemma {:induction false} RemoveCommasDistributes(x: string, y: string)
    ensures RemoveCommas(x + y) == RemoveCommas(x) + RemoveCommas(y)
  {
    if x == [] {
      assert x + y == y;
    } else {
      var head := if x[0] == ',' then [] else [x[0]];
      var xs := x[1..];
      assert (x + y)[0] == x[0] && (x + y)[1..] == xs + y;
      assert RemoveCommas(x + y) == head + RemoveCommas(xs + y);
      assert RemoveCommas(x) == head + RemoveCommas(xs);
      RemoveCommasDistributes(xs, y);
    }
  }

  /** A string with no comma is left alone. */
  lemma {:induction false} RemoveCommasKeepsCommaFree(s: string)
    requires ',' !in s
    ensures RemoveCommas(s) == s
  {
    if s != [] {
      assert s == [s[0]] + s[1..];
      RemoveCommasKeepsCommaFree(s[1..]);
    }
  }

  /** All chars of `t` are ASCII digits. */
  predicate IsDigitString(t: string) {
    AllIn(Digits, t, 0, |t|)
  }

  function DigitValue(c: char): (v: nat)
    requires IsDigit(c)
    ensures v <= 9
  {
    c as int - '0' as int
  }

  /** The base-10 value of a digit string. */
  function DigitsValue(t: string): nat
    requires IsDigitString(t)
  {
    if t == [] then 0
    else
      assert IsDigitString(t[..|t| - 1]);
      10 * DigitsValue(t[..|t| - 1]) + DigitValue(t[|t| - 1])
  }

  /** The shapes the number groups take once their commas are gone: `[0-9]+`, optionally followed by `\.[0-9]{1,2}`. */
  predicate IsPlainDecimal(t: string) {
    var k := Run(Digits, t, 0);
    k >= 1 && (k == |t| || (t[k] == '.' && 2 <= |t| - k <= 3 && AllIn(Digits, t, k + 1, |t|)))
  }

  /** `Math.round(Double.parseDouble(t) * 100.0)`, computed exactly. */
  function DecimalCents(t: string): nat
    requires IsPlainDecimal(t)
  {
    var k := Run(Digits, t, 0);
    assert IsDigitString(t[..k]);
    var whole := 100 * DigitsValue(t[..k]);
    if k == |t| then whole
    else if |t| - k == 2 then whole + 10 * DigitValue(t[k + 1])
    else whole + 10 * DigitValue(t[k + 1]) + DigitValue(t[k + 2])
  }

  /** The decimal digits of `n`, without leading zeros. */
  function NatToDigits(n: nat): (t: string)
    ensures |t| >= 1 && IsDigitString(t)
    ensures DigitsValue(t) == n
  {
    var last := ['0' + (n % 10) as char];
    if n < 10 then last
    else
      var t := NatToDigits(n / 10) + last;
      assert t[..|t| - 1] == NatToDigits(n / 10);
      t
  }

  /** Renders a cents value as `<units>.<two digits>`, the shape a payment notification shows. */
  function FormatCents(c: nat): (t: string)
    ensures IsPlainDecimal(t)
    ensures ',' !in t
    ensures |t| >= 4 && Run(Digits, t, 0) == |t| - 3 && t[|t| - 3] == '.' && AllIn(Digits, t, |t| - 2, |t|)
  {
    var units := NatToDigits(c / 100);
    var t := units + ['.', '0' + (c / 10 % 10) as char, '0' + (c % 10) as char];
    RunIsLongest(Digits, t, 0, |units|);
    t
  }

  /** Formatting a cents value and parsing it back gives the same value. */
  lemma FormatCentsRoundTrip(c: nat)
    ensures DecimalCents(FormatCents(c)) == c
  {
    var units := NatToDigits(c / 100);
    var t := FormatCents(c);
    var k := |units|;
    assert t == units + ['.', '0' + (c / 10 % 10) as char, '0' + (c % 10) as char];
    assert t[..k] == units;
    assert DigitValue(t[k + 1]) == c / 10 % 10;
    assert DigitValue(t[k + 2]) == c % 10;
    CentsDigits(c);
  }

  lemma CentsDigits(c: nat)
    ensures 100 * (c / 100) + 10 * (c / 10 % 10) + c % 10 == c
  {
  }

  // ---------------------------------------------------------------------------
  // Every matched group parses

  lemma {:induction false} GroupedIntegerLosesCommas(s: string, a: nat, b: nat)
    requires a <= b <= |s| && IsGroupedInteger(s, a, b)
    ensures var t := RemoveCommas(s[a..b]); |t| >= 1 && IsDigitString(t)
    decreases b - a
  {
    if 1 <= b - a <= 3 && AllIn(Digits, s, a, b) {
      DigitSlice(s, a, b);
    } else {
      GroupedIntegerLosesCommas(s, a, b - 4);
      CommaGroupDropsComma(s, a, b);
    }
  }

  /** Removing the commas of `head,ddd` keeps the digits of the head and appends `ddd`. */
  lemma CommaGroupDropsComma(s: string, a: nat, b: nat)
    requires a + 4 <= b <= |s| && IsGroupAt(s, b - 4)
    requires var h := RemoveCommas(s[a..b - 4]); |h| >= 1 && IsDigitString(h)
    ensures var t := RemoveCommas(s[a..b]); |t| >= 1 && IsDigitString(t)
  {
    GroupDigits(s, b - 4);
    DigitSlice(s, b - 3, b);
    DigitStringsConcat(RemoveCommas(s[a..b - 4]), s[b - 3..b]);
    SliceAroundComma(s, a, b);
    DropComma(s[a..b - 4], s[b - 3..b]);
  }

  lemma GroupDigits(s: string, p: nat)
    requires IsGroupAt(s, p)
    ensures AllIn(Digits, s, p + 1, p + 4)
  {
  }

  lemma SliceAroundComma(s: string, a: nat, b: nat)
    requires a + 4 <= b <= |s| && s[b - 4] == ','
    ensures s[a..b] == s[a..b - 4] + [','] + s[b - 3..b]
  {
  }

  lemma DropComma(head: string, tail: string)
    requires ',' !in tail
    ensures RemoveCommas(head + [','] + tail) == RemoveCommas(head) + tail
  {
    var hc := head + [','];
    RemoveCommasDistributes(hc, tail);
    RemoveCommasDistributes(head, [',']);
    CommaIsRemoved();
    RemoveCommasKeepsCommaFree(tail);
    assert RemoveCommas(hc) == RemoveCommas(head);
  }

  lemma CommaIsRemoved()
    ensures RemoveCommas([',']) == []
  {
    var c := [','];
    assert c[0] == ',' && c[1..] == [];
  }

  lemma DigitStringsConcat(x: string, y: string)
    requires IsDigitString(x) && IsDigitString(y)
    ensures IsDigitString(x + y)
  {
    assert forall i :: 0 <= i < |x + y| ==> (x + y)[i] == if i < |x| then x[i] else y[i - |x|];
  }

  /** A digit string followed by a fraction is a plain decimal. */
  lemma DigitsThenFraction(u: string, f: string)
    requires |u| >= 1 && IsDigitString(u)
    requires 2 <= |f| <= 3 && f[0] == '.' && AllIn(Digits, f, 1, |f|)
    ensures IsPlainDecimal(u + f)
  {
    var t := u + f;
    RunIsLongest(Digits, t, 0, |u|);
    assert forall k :: |u| + 1 <= k < |t| ==> t[k] == f[k - |u|];
  }

  /** A slice of digits is a comma-free digit string. */
  lemma DigitSlice(s: string, a: nat, b: nat)
    requires a <= b <= |s| && AllIn(Digits, s, a, b)
    ensures IsDigitString(s[a..b]) && ',' !in s[a..b]
    ensures RemoveCommas(s[a..b]) == s[a..b]
  {
    assert forall i :: 0 <= i < b - a ==> s[a..b][i] == s[a + i];
    RemoveCommasKeepsCommaFree(s[a..b]);
  }

  /** A matched fraction keeps its shape as a string of its own. */
  lemma FractionSlice(s: string, k: nat, b: nat)
    requires k <= b <= |s| && IsFraction(s, k, b)
    ensures var f := s[k..b]; 2 <= |f| <= 3 && f[0] == '.' && AllIn(Digits, f, 1, |f|)
    ensures ',' !in s[k..b] && RemoveCommas(s[k..b]) == s[k..b]
  {
    assert forall i :: 0 <= i < b - k ==> s[k..b][i] == s[k + i];
    RemoveCommasKeepsCommaFree(s[k..b]);
  }

  /** The group of a current-revision amount always parses: the `NumberFormatException` branch is never taken. */
  lemma AmountNumberParses(s: string, a: nat, b: nat)
    requires a <= b <= |s| && IsAmountNumber(s, a, b)
    ensures IsPlainDecimal(RemoveCommas(s[a..b]))
  {
    var k: nat :| IsDecimalSplit(s, a, k, b);
    var head, frac := s[a..k], s[k..b];
    assert s[a..b] == head + frac;
    RemoveCommasDistributes(head, frac);
    FractionSlice(s, k, b);
    if IsGroupedInteger(s, a, k) {
      GroupedIntegerLosesCommas(s, a, k);
    } else {
      DigitSlice(s, a, k);
    }
    DigitsThenFraction(RemoveCommas(head), frac);
  }

  /** The group of a legacy amount always parses as well. */
  lemma LegacyNumberParses(s: string, a: nat, b: nat)
    requires a <= b <= |s| && IsLegacyNumber(s, a, b)
    ensures IsPlainDecimal(RemoveCommas(s[a..b]))
  {
    if IsAmountNumber(s, a, b) {
      AmountNumberParses(s, a, b);
    } else {
      DigitSlice(s, a, b);
      RunIsLongest(Digits, s[a..b], 0, b - a);
    }
  }
}
