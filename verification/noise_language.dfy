/**
  What `\s+\-*\s*$` denotes, a proof that `Patterns.TrailingNoiseAt` returns the match
  Java returns, and what `replaceAll("")` with this pattern does to a whole string.
 */
module NoiseLanguage {
  import opened Chars
  import opened Spans
  import opened Patterns
  import opened Wrappers

  /** `s[i..p]` splits as `\s+` over `s[i..k]`, `\-*` over `s[k..d]` and `\s*` over `s[d..p]`, and `$` holds at `p`. */
  ghost predicate IsNoiseSplit(s: string, i: nat, k: nat, d: nat, p: nat) {
    i < k <= d <= p <= |s| &&
    AllIn(Spaces, s, i, k) && AllIn(Dashes, s, k, d) && AllIn(Spaces, s, d, p) && IsEndAnchor(s, p)
  }

  /** `s[i..p]` is a match of `\s+\-*\s*$`. */
  ghost predicate IsTrailingNoise(s: string, i: nat, p: nat) {
    exists k: nat, d: nat :: IsNoiseSplit(s, i, k, d, p)
  }

  /** Where the three greedy runs that start at `i` stop. */
  function GreedyNoiseEnd(s: string, i: nat): (p: nat)
    requires i <= |s|
    ensures i <= p <= |s|
    ensures p < |s| ==> !IsSpace(s[p])
  {
    var k := Run(Spaces, s, i);
    var d := Run(Dashes, s, i + k);
    i + k + d + Run(Spaces, s, i + k + d)
  }

  /** No split of the pattern reaches past the greedy runs. */
  lemma SplitEndsWithinGreedy(s: string, i: nat, k: nat, d: nat, p: nat)
    requires IsNoiseSplit(s, i, k, d, p)
    ensures p <= GreedyNoiseEnd(s, i)
  {
    var k0 := i + Run(Spaces, s, i);
    RunIsLongest(Spaces, s, i, k);
    if k < k0 {
      assert IsSpace(s[k]);
      assert d == k;
      assert AllIn(Spaces, s, i, p);
      RunIsLongest(Spaces, s, i, p);
    } else {
      var d0 := k0 + Run(Dashes, s, k0);
      RunIsLongest(Dashes, s, k0, d);
      if d < d0 {
        assert s[d] == '-';
        assert p == d;
      } else {
        RunIsLongest(Spaces, s, d0, p);
      }
    }
  }

  /** `$` still holds after a stretch that ends at the end or before a non-whitespace char. */
  lemma EndAnchorMovesRight(s: string, p: nat, q: nat)
    requires p <= q <= |s| && IsEndAnchor(s, p)
    requires q < |s| ==> !IsSpace(s[q])
    ensures IsEndAnchor(s, q)
  {
  }

  /**
    Java's match for `\s+\-*\s*$` at `i`: the greedy runs are a match whenever any match
    exists at `i`, and no match at `i` ends later.
   */
  lemma TrailingNoiseAtIsJavaMatch(s: string, i: nat)
    requires i <= |s|
    ensures TrailingNoiseAt(s, i).Some? ==>
      var m := TrailingNoiseAt(s, i).value;
      m.groupStart == i && m.groupEnd == m.end && IsTrailingNoise(s, i, m.end)
    ensures forall p: nat :: IsTrailingNoise(s, i, p) ==>
      TrailingNoiseAt(s, i).Some? && p <= TrailingNoiseAt(s, i).value.end
  {
    var k := i + Run(Spaces, s, i);
    var d := k + Run(Dashes, s, k);
    var p0 := GreedyNoiseEnd(s, i);
    if TrailingNoiseAt(s, i).Some? {
      assert IsNoiseSplit(s, i, k, d, p0);
    }
    forall p: nat | IsTrailingNoise(s, i, p)
      ensures TrailingNoiseAt(s, i).Some? && p <= TrailingNoiseAt(s, i).value.end
    {
      var k1: nat, d1: nat :| IsNoiseSplit(s, i, k1, d1, p);
      SplitEndsWithinGreedy(s, i, k1, d1, p);
      EndAnchorMovesRight(s, p, p0);
      RunIsLongest(Spaces, s, i, k1);
    }
  }

  /** Once the pattern has matched, it matches nowhere at or after the end of that match. */
  lemma NoNoiseAfterNoise(s: string, i: nat)
    requires i <= |s| && TrailingNoiseAt(s, i).Some?
    ensures forall j :: TrailingNoiseAt(s, i).value.end <= j <= |s| ==> TrailingNoiseAt(s, j).None?
  {
  }

  /** A search that can find no match anywhere returns nothing, and `replaceAll` then keeps the rest. */
  lemma NothingToFind(pat: Pattern, s: string, from: nat)
    requires from <= |s|
    requires forall j :: from <= j <= |s| ==> MatchAt(pat, s, j).None?
    ensures Find(pat, s, from).None?
    ensures DeleteFrom(pat, s, from) == s[from..]
  {
  }

  /**
    `replaceAll("")` with `\s+\-*\s*$` removes exactly the leftmost match, and keeps
    everything else: the text before it and what the `$` stood before.
   */
  lemma RemoveNoiseCutsFirstMatch(s: string)
    ensures Find(TrailingNoise, s, 0).None? ==> DeleteAll(TrailingNoise, s) == s
    ensures Find(TrailingNoise, s, 0).Some? ==>
      var m := Find(TrailingNoise, s, 0).value;
      DeleteAll(TrailingNoise, s) == s[..m.start] + s[m.end..]
  {
    assert s[0..] == s;
    if Find(TrailingNoise, s, 0).Some? {
      var m := Find(TrailingNoise, s, 0).value;
      NoNoiseAfterNoise(s, m.start);
      NothingToFind(TrailingNoise, s, m.end);
      assert s[0..m.start] == s[..m.start];
    }
  }
}
