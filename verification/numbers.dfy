/**
  The number part of the amount patterns.

  Both revisions share the first alternative
      [0-9]{1,3}(?:,[0-9]{3})*(?:\.[0-9]{1,2})
  The current revision's second alternative is `[0-9]+(?:\.[0-9]{1,2})`; the legacy one is
  `[0-9]+(?:\.[0-9]{1,2})?`, with the fraction optional. The `...End` functions give the end
  of the group Java's matcher picks at a start position; the ghost predicates give the
  language each alternative denotes, and the lemmas connect the two.
 */
module Numbers {
  import opened Chars
  import opened Spans
  import opened Wrappers

  /** `,[0-9]{3}` starts at `p`. */
  predicate IsGroupAt(s: string, p: nat) {
    p + 4 <= |s| && s[p] == ',' && IsDigit(s[p + 1]) && IsDigit(s[p + 2]) && IsDigit(s[p + 3])
  }

  /** Where the greedy `(?:,[0-9]{3})*` that starts at `p` stops. */
  function GroupsEnd(s: string, p: nat): (e: nat)
    requires p <= |s|
    ensures p <= e <= |s|
    ensures !IsGroupAt(s, e)
    decreases |s| - p
  {
    if IsGroupAt(s, p) then GroupsEnd(s, p + 4) else p
  }

  /** Where the greedy `\.[0-9]{1,2}` that starts at `k` stops, if it matches at all. */
  function FractionEnd(s: string, k: nat): (r: Option<nat>)
    requires k <= |s|
    ensures r.Some? ==> k < r.value <= |s| && IsFraction(s, k, r.value)
    ensures forall b :: k <= b <= |s| && IsFraction(s, k, b) ==> r.Some? && b <= r.value
    ensures r.Some? ==> forall b :: k <= b < r.value && IsFraction(s, k, b) ==> IsDigit(s[b])
  {
    if k < |s| && s[k] == '.' && Run(Digits, s, k + 1) >= 1 then
      Some(k + 1 + if Run(Digits, s, k + 1) >= 2 then 2 else 1)
    else
      None
  }

  /** Java's choice for the current revision's number group at `j`: first alternative, then second. */
  function NumberEnd(s: string, j: nat): (r: Option<nat>)
    requires j <= |s|
    ensures r.Some? ==> j < r.value <= |s|
  {
    var d := Run(Digits, s, j);
    if d == 0 then None
    else
      var grouped := if d <= 3 then FractionEnd(s, GroupsEnd(s, j + d)) else None;
      if grouped.Some? then grouped else FractionEnd(s, j + d)
  }

  /** Java's choice for the legacy number group at `j`, where the plain form may omit the fraction. */
  function LegacyNumberEnd(s: string, j: nat): (r: Option<nat>)
    requires j <= |s|
    ensures r.Some? ==> j < r.value <= |s|
  {
    var d := Run(Digits, s, j);
    if d == 0 then None
    else
      var grouped := if d <= 3 then FractionEnd(s, GroupsEnd(s, j + d)) else None;
      if grouped.Some? then grouped
      else Some(FractionEnd(s, j + d).GetOr(j + d))
  }

  // ---------------------------------------------------------------------------
  // The languages

  /** `s[a..b]` is in `[0-9]{1,3}(?:,[0-9]{3})*`. */
  ghost predicate IsGroupedInteger(s: string, a: nat, b: nat)
    requires a <= b <= |s|
    decreases b - a
  {
    || (1 <= b - a <= 3 && AllIn(Digits, s, a, b))
    || (b - a >= 5 && IsGroupAt(s, b - 4) && IsGroupedInteger(s, a, b - 4))
  }

  /** `s[a..b]` is in `\.[0-9]{1,2}`. */
  ghost predicate IsFraction(s: string, a: nat, b: nat)
    requires a <= b <= |s|
  {
    2 <= b - a <= 3 && s[a] == '.' && AllIn(Digits, s, a + 1, b)
  }

  /** `s[a..b]` is an integer part (either alternative) followed by a fraction starting at `k`. */
  ghost predicate IsDecimalSplit(s: string, a: nat, k: nat, b: nat)
    requires a <= b <= |s|
  {
    a < k < b && (IsGroupedInteger(s, a, k) || AllIn(Digits, s, a, k)) && IsFraction(s, k, b)
  }

  /** `s[a..b]` is in the current revision's number language. */
  ghost predicate IsAmountNumber(s: string, a: nat, b: nat)
    requires a <= b <= |s|
  {
    exists k :: IsDecimalSplit(s, a, k, b)
  }

  /** `s[a..b]` is in the legacy number language: the above, or plain digits. */
  ghost predicate IsLegacyNumber(s: string, a: nat, b: nat)
    requires a <= b <= |s|
  {
    IsAmountNumber(s, a, b) || (a < b && AllIn(Digits, s, a, b))
  }

  // ---------------------------------------------------------------------------
  // The matchers against the languages

  /** A grouped integer that stops at a non-digit has a head of at most three digits, and its groups are the greedy ones. */
  lemma {:induction false} GroupedIntegerIsGreedy(s: string, a: nat, k: nat)
    requires a <= k <= |s| && IsGroupedInteger(s, a, k)
    requires k == |s| || !IsDigit(s[k])
    ensures 1 <= Run(Digits, s, a) <= 3
    ensures GroupsEnd(s, a + Run(Digits, s, a)) == GroupsEnd(s, k)
    decreases k - a
  {
    if 1 <= k - a <= 3 && AllIn(Digits, s, a, k) {
      RunIsLongest(Digits, s, a, k);
    } else {
      assert IsGroupAt(s, k - 4) && IsGroupedInteger(s, a, k - 4);
      GroupedIntegerIsGreedy(s, a, k - 4);
    }
  }

  /** The greedy groups after a head of one to three digits form a grouped integer. */
  lemma {:induction false} GreedyGroupsAreGrouped(s: string, a: nat, p: nat)
    requires a <= p <= |s| && IsGroupedInteger(s, a, p)
    ensures IsGroupedInteger(s, a, GroupsEnd(s, p))
    decreases |s| - p
  {
    if IsGroupAt(s, p) {
      assert IsGroupedInteger(s, a, p + 4);
      GreedyGroupsAreGrouped(s, a, p + 4);
    }
  }

  /** Any decimal split has its point at the one place Java's matcher puts it. */
  lemma SplitIsForced(s: string, a: nat, k: nat, b: nat)
    requires a <= b <= |s| && IsDecimalSplit(s, a, k, b)
    ensures var d := Run(Digits, s, a);
      d >= 1 && (k == a + d || (d <= 3 && k == GroupsEnd(s, a + d)))
  {
    if IsGroupedInteger(s, a, k) {
      GroupedIntegerIsGreedy(s, a, k);
      assert !IsGroupAt(s, k);
    } else {
      RunIsLongest(Digits, s, a, k);
    }
  }

  /** What the current revision's number matcher returns is in the number language. */
  lemma NumberEndIsMember(s: string, j: nat)
    requires j <= |s|
    ensures NumberEnd(s, j).Some? ==> IsAmountNumber(s, j, NumberEnd(s, j).value)
  {
    var d := Run(Digits, s, j);
    if 1 <= d <= 3 && FractionEnd(s, GroupsEnd(s, j + d)).Some? {
      GroupedNumberIsMember(s, j);
    } else if d >= 1 && FractionEnd(s, j + d).Some? {
      PlainNumberIsMember(s, j);
    }
  }

  lemma GroupedNumberIsMember(s: string, j: nat)
    requires j <= |s| && 1 <= Run(Digits, s, j) <= 3
    requires FractionEnd(s, GroupsEnd(s, j + Run(Digits, s, j))).Some?
    ensures NumberEnd(s, j).Some? && IsAmountNumber(s, j, NumberEnd(s, j).value)
  {
    GroupedHeadIsGrouped(s, j);
    NumberEndIsGrouped(s, j);
    var k := GroupsEnd(s, j + Run(Digits, s, j));
    SplitIsNumber(s, j, k, FractionEnd(s, k).value, NumberEnd(s, j).value);
  }

  lemma GroupedHeadIsGrouped(s: string, j: nat)
    requires j <= |s| && 1 <= Run(Digits, s, j) <= 3
    ensures IsGroupedInteger(s, j, GroupsEnd(s, j + Run(Digits, s, j)))
  {
    assert IsGroupedInteger(s, j, j + Run(Digits, s, j));
    GreedyGroupsAreGrouped(s, j, j + Run(Digits, s, j));
  }

  lemma NumberEndIsGrouped(s: string, j: nat)
    requires j <= |s| && 1 <= Run(Digits, s, j) <= 3
    requires FractionEnd(s, GroupsEnd(s, j + Run(Digits, s, j))).Some?
    ensures NumberEnd(s, j) == FractionEnd(s, GroupsEnd(s, j + Run(Digits, s, j)))
  {
  }

  lemma PlainNumberIsMember(s: string, j: nat)
    requires j <= |s| && 1 <= Run(Digits, s, j)
    requires !(Run(Digits, s, j) <= 3 && FractionEnd(s, GroupsEnd(s, j + Run(Digits, s, j))).Some?)
    requires FractionEnd(s, j + Run(Digits, s, j)).Some?
    ensures NumberEnd(s, j).Some? && IsAmountNumber(s, j, NumberEnd(s, j).value)
  {
    var d := Run(Digits, s, j);
    var e := FractionEnd(s, j + d).value;
    assert NumberEnd(s, j) == Some(e);
    SplitIsNumber(s, j, j + d, e, NumberEnd(s, j).value);
  }

  lemma SplitIsNumber(s: string, a: nat, k: nat, e: nat, b: nat)
    requires a < k < e <= |s| && (IsGroupedInteger(s, a, k) || AllIn(Digits, s, a, k)) && IsFraction(s, k, e)
    requires b == e
    ensures IsAmountNumber(s, a, b)
  {
    assert IsDecimalSplit(s, a, k, e);
  }

  /** Every member of the number language at `j` is found, and none is longer than the matcher's choice. */
  lemma NumberEndCoversMember(s: string, j: nat, b: nat)
    requires j <= b <= |s| && IsAmountNumber(s, j, b)
    ensures NumberEnd(s, j).Some? && b <= NumberEnd(s, j).value
    ensures b < NumberEnd(s, j).value ==> IsDigit(s[b])
  {
    var d := Run(Digits, s, j);
    var k :| IsDecimalSplit(s, j, k, b);
    SplitIsForced(s, j, k, b);
    if k != j + d {
      assert IsGroupAt(s, j + d);
    }
  }

  /**
    The current revision's number matcher returns the longest member of the number
    language starting at `j`, and nothing when the language has no member there.
    Any shorter member stops before a second fraction digit.
   */
  lemma NumberEndIsLongest(s: string, j: nat)
    requires j <= |s|
    ensures NumberEnd(s, j).Some? ==> IsAmountNumber(s, j, NumberEnd(s, j).value)
    ensures forall b :: j <= b <= |s| && IsAmountNumber(s, j, b) ==>
      NumberEnd(s, j).Some? && b <= NumberEnd(s, j).value
    ensures forall b :: j <= b <= |s| && IsAmountNumber(s, j, b) && b < NumberEnd(s, j).value ==>
      IsDigit(s[b])
  {
    NumberEndIsMember(s, j);
    forall b | j <= b <= |s| && IsAmountNumber(s, j, b)
      ensures NumberEnd(s, j).Some? && b <= NumberEnd(s, j).value
      ensures b < NumberEnd(s, j).value ==> IsDigit(s[b])
    {
      NumberEndCoversMember(s, j, b);
    }
  }

  /**
    The legacy number matcher returns the longest member of the legacy number language
    starting at `j`; it matches exactly where a digit stands.
   */
  lemma LegacyNumberEndIsLongest(s: string, j: nat)
    requires j <= |s|
    ensures LegacyNumberEnd(s, j).Some? <==> j < |s| && IsDigit(s[j])
    ensures LegacyNumberEnd(s, j).Some? ==> IsLegacyNumber(s, j, LegacyNumberEnd(s, j).value)
    ensures forall b :: j <= b <= |s| && IsLegacyNumber(s, j, b) ==>
      LegacyNumberEnd(s, j).Some? && b <= LegacyNumberEnd(s, j).value
  {
    NumberEndIsLongest(s, j);
    var d := Run(Digits, s, j);
    if d >= 1 {
      var grouped := if d <= 3 then FractionEnd(s, GroupsEnd(s, j + d)) else None;
      if grouped.Some? {
        assert grouped == NumberEnd(s, j);
      } else if FractionEnd(s, j + d).Some? {
        assert FractionEnd(s, j + d) == NumberEnd(s, j);
      } else {
        assert NumberEnd(s, j).None?;
      }
    }
    forall b | j <= b <= |s| && IsLegacyNumber(s, j, b)
      ensures LegacyNumberEnd(s, j).Some? && b <= LegacyNumberEnd(s, j).value
    {
      if !IsAmountNumber(s, j, b) {
        RunIsLongest(Digits, s, j, b);
      }
    }
  }
}
