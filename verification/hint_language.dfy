/**
  What the merchant hint patterns denote, and a proof that `Patterns.HintAt` returns the
  match Java's backtracking matcher returns at a start position.

  In `\bat\s+(<class>{2,60})` Java first lets `\s+` take every whitespace char, then the
  capture as many chars as it can (at most 60); when the capture cannot reach two chars,
  `\s+` gives back one char at a time. Among all the ways the pattern can match at a start,
  the one returned therefore has the latest group start and, for that start, the latest
  group end: the greatest pair in the order `Prefers` states.
 */
module HintLanguage {
  import opened Chars
  import opened Spans
  import opened Patterns
  import opened Wrappers

  /** `s[g..e]` is in `<cls>{2,60}`. */
  ghost predicate IsCapture(cls: CharClass, s: string, g: nat, e: nat) {
    g <= e <= |s| && CaptureMin <= e - g <= CaptureMax && AllIn(cls, s, g, e)
  }

  /** The hint pattern for `h` matches at `i` with capture group 1 at `s[g..e]`. */
  ghost predicate IsHintMatch(h: Hint, s: string, i: nat, g: nat, e: nat) {
    HintWordAt(h, s, i) &&
    var p := i + |HintWord(h)|;
    p <= g && IsCapture(HintClass(h), s, g, e) &&
    if IsLatin(h) then IsWordBoundary(s, i) && p < g && AllIn(Spaces, s, p, g) else g == p
  }

  /** Java's backtracking order: a later group start first, then a later group end. */
  predicate Prefers(g: nat, e: nat, g2: nat, e2: nat) {
    g2 < g || (g2 == g && e2 <= e)
  }

  /** The greedy capture is the longest capture at `g`. */
  lemma CaptureAtIsLongest(cls: CharClass, s: string, i: nat, g: nat)
    requires i <= g <= |s|
    ensures CaptureAt(cls, s, i, g).Some? ==>
      var m := CaptureAt(cls, s, i, g).value;
      m.end == m.groupEnd && IsCapture(cls, s, g, m.groupEnd)
    ensures forall e: nat :: IsCapture(cls, s, g, e) ==>
      CaptureAt(cls, s, i, g).Some? && e <= CaptureAt(cls, s, i, g).value.groupEnd
  {
    var c := Run(cls, s, g);
    assert AllIn(cls, s, g, g + Min(CaptureMax, c));
    forall e: nat | IsCapture(cls, s, g, e)
      ensures CaptureAt(cls, s, i, g).Some? && e <= CaptureAt(cls, s, i, g).value.groupEnd
    {
      RunIsLongest(cls, s, g, e);
    }
  }

  /**
    `r` is the capture Java takes after `\s+` over `s[p..p + n]` or a prefix of it: a capture
    starting after at least one whitespace char, preferred to every other such capture.
   */
  ghost predicate IsPreferredCapture(cls: CharClass, s: string, p: nat, n: nat, r: Option<Match>) {
    && (r.Some? ==>
          p < r.value.groupStart <= p + n && r.value.end == r.value.groupEnd &&
          IsCapture(cls, s, r.value.groupStart, r.value.groupEnd))
    && (forall g: nat, e: nat :: p < g <= p + n && IsCapture(cls, s, g, e) ==>
          r.Some? && Prefers(r.value.groupStart, r.value.groupEnd, g, e))
  }

  /** Backing off `\s+` one char at a time finds the preferred capture after `s[p..p + n]`. */
  lemma {:induction false} SpacesThenCaptureIsPreferred(cls: CharClass, s: string, i: nat, p: nat, n: nat)
    requires i <= p && 1 <= n && p + n <= |s|
    ensures IsPreferredCapture(cls, s, p, n, SpacesThenCapture(cls, s, i, p, n))
    decreases n
  {
    var r := SpacesThenCapture(cls, s, i, p, n);
    if CaptureAt(cls, s, i, p + n).Some? {
      assert r == CaptureAt(cls, s, i, p + n);
      CaptureHereIsPreferred(cls, s, i, p, n);
    } else if n > 1 {
      assert r == SpacesThenCapture(cls, s, i, p, n - 1);
      SpacesThenCaptureIsPreferred(cls, s, i, p, n - 1);
      BackOffKeepsPreferred(cls, s, i, p, n, r);
    } else {
      assert r.None?;
      BackOffKeepsPreferred(cls, s, i, p, n, r);
    }
  }

  /** A capture right after all `n` whitespace chars is the preferred one. */
  lemma CaptureHereIsPreferred(cls: CharClass, s: string, i: nat, p: nat, n: nat)
    requires i <= p && 1 <= n && p + n <= |s| && CaptureAt(cls, s, i, p + n).Some?
    ensures IsPreferredCapture(cls, s, p, n, CaptureAt(cls, s, i, p + n))
  {
    CaptureAtIsLongest(cls, s, i, p + n);
  }

  /** With no capture after all `n` whitespace chars, the preferred capture for `n - 1` is the one for `n`. */
  lemma BackOffKeepsPreferred(cls: CharClass, s: string, i: nat, p: nat, n: nat, r: Option<Match>)
    requires i <= p && 1 <= n && p + n <= |s| && CaptureAt(cls, s, i, p + n).None?
    requires IsPreferredCapture(cls, s, p, n - 1, r)
    ensures IsPreferredCapture(cls, s, p, n, r)
  {
    CaptureAtIsLongest(cls, s, i, p + n);
  }

  /** What `HintAt` returns is a match of the hint pattern. */
  lemma HintAtIsMember(h: Hint, s: string, i: nat)
    requires i <= |s|
    ensures HintAt(h, s, i).Some? ==>
      var m := HintAt(h, s, i).value;
      m.end == m.groupEnd && IsHintMatch(h, s, i, m.groupStart, m.groupEnd)
  {
    if HintAt(h, s, i).Some? {
      if IsLatin(h) {
        LatinHintAtIsMember(h, s, i);
      } else {
        var p := i + |HintWord(h)|;
        assert HintAt(h, s, i) == CaptureAt(HintClass(h), s, i, p);
        CaptureAtIsLongest(HintClass(h), s, i, p);
      }
    }
  }

  lemma LatinHintAtIsMember(h: Hint, s: string, i: nat)
    requires i <= |s| && IsLatin(h) && HintAt(h, s, i).Some?
    ensures var m := HintAt(h, s, i).value;
      m.end == m.groupEnd && IsHintMatch(h, s, i, m.groupStart, m.groupEnd)
  {
    var p := i + |HintWord(h)|;
    var n := Run(Spaces, s, p);
    LatinHintAtUnfolds(h, s, i);
    SpacesThenCaptureIsPreferred(HintClass(h), s, i, p, n);
    PreferredCaptureIsHintMatch(h, s, i, HintAt(h, s, i));
  }

  /** A found English hint is the backing-off search after the hint word and all its whitespace. */
  lemma LatinHintAtUnfolds(h: Hint, s: string, i: nat)
    requires i <= |s| && IsLatin(h) && HintAt(h, s, i).Some?
    ensures var p := i + |HintWord(h)|;
      && HintWordAt(h, s, i) && IsWordBoundary(s, i) && Run(Spaces, s, p) >= 1
      && HintAt(h, s, i) == SpacesThenCapture(HintClass(h), s, i, p, Run(Spaces, s, p))
  {
  }

  lemma PreferredCaptureIsHintMatch(h: Hint, s: string, i: nat, r: Option<Match>)
    requires i <= |s| && IsLatin(h) && HintWordAt(h, s, i) && IsWordBoundary(s, i)
    requires i + |HintWord(h)| <= |s|
    requires IsPreferredCapture(HintClass(h), s, i + |HintWord(h)|, Run(Spaces, s, i + |HintWord(h)|), r)
    requires r.Some?
    ensures r.value.end == r.value.groupEnd && IsHintMatch(h, s, i, r.value.groupStart, r.value.groupEnd)
  {
    var p := i + |HintWord(h)|;
    assert AllIn(Spaces, s, p, r.value.groupStart);
  }

  /** `HintAt` finds a match wherever the pattern has one, and Java prefers it to every other. */
  lemma HintAtCoversMember(h: Hint, s: string, i: nat, g: nat, e: nat)
    requires i <= |s| && IsHintMatch(h, s, i, g, e)
    ensures HintAt(h, s, i).Some? && Prefers(HintAt(h, s, i).value.groupStart, HintAt(h, s, i).value.groupEnd, g, e)
  {
    var p := i + |HintWord(h)|;
    if IsLatin(h) {
      LatinHintAtCovers(h, s, i, g, e);
    } else {
      assert g == p && IsCapture(HintClass(h), s, g, e);
      CaptureAtIsLongest(HintClass(h), s, i, p);
      assert HintAt(h, s, i) == CaptureAt(HintClass(h), s, i, p);
    }
  }

  lemma LatinHintAtCovers(h: Hint, s: string, i: nat, g: nat, e: nat)
    requires i <= |s| && IsLatin(h) && IsHintMatch(h, s, i, g, e)
    ensures HintAt(h, s, i).Some? && Prefers(HintAt(h, s, i).value.groupStart, HintAt(h, s, i).value.groupEnd, g, e)
  {
    var p := i + |HintWord(h)|;
    assert p < g && AllIn(Spaces, s, p, g) && IsWordBoundary(s, i) && IsCapture(HintClass(h), s, g, e);
    RunIsLongest(Spaces, s, p, g);
    var n := Run(Spaces, s, p);
    assert HintAt(h, s, i) == SpacesThenCapture(HintClass(h), s, i, p, n);
    SpacesThenCaptureIsPreferred(HintClass(h), s, i, p, n);
  }

  /**
    Java's match for the hint pattern of `h` at `i`: `HintAt` returns a match of the
    pattern, and the one Java prefers over every other match at `i`.
   */
  lemma HintAtIsJavaMatch(h: Hint, s: string, i: nat)
    requires i <= |s|
    ensures HintAt(h, s, i).Some? ==>
      var m := HintAt(h, s, i).value;
      m.end == m.groupEnd && IsHintMatch(h, s, i, m.groupStart, m.groupEnd)
    ensures forall g: nat, e: nat :: IsHintMatch(h, s, i, g, e) ==>
      HintAt(h, s, i).Some? && Prefers(HintAt(h, s, i).value.groupStart, HintAt(h, s, i).value.groupEnd, g, e)
  {
    HintAtIsMember(h, s, i);
    forall g: nat, e: nat | IsHintMatch(h, s, i, g, e)
      ensures HintAt(h, s, i).Some? && Prefers(HintAt(h, s, i).value.groupStart, HintAt(h, s, i).value.groupEnd, g, e)
    {
      HintAtCoversMember(h, s, i, g, e);
    }
  }
}
