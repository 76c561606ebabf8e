/**
  Positions and spans of a string, and the greedy character-class runs the matchers are
  built from. A span is a pair of positions `a <= b` and denotes `s[a..b]`.
 */
module Spans {
  import opened Chars

  /** The character classes the fixed patterns use. */
  datatype CharClass =
    | Digits        // [0-9]
    | Spaces        // \s
    | Dashes        // \-
    | HintChars     // [A-Za-z0-9&\-*.#\s]
    | HanHintChars  // [\p{L}A-Za-z0-9&\-*.#\s]

  predicate InClass(cls: CharClass, c: char) {
    match cls
    case Digits => IsDigit(c)
    case Spaces => IsSpace(c)
    case Dashes => c == '-'
    case HintChars => IsAsciiLetter(c) || IsDigit(c) || c in "&-*.#" || IsSpace(c)
    case HanHintChars => IsLetter(c) || IsAsciiLetter(c) || IsDigit(c) || c in "&-*.#" || IsSpace(c)
  }

  /** Every char of `s[a..b]` belongs to `cls`. */
  predicate AllIn(cls: CharClass, s: string, a: nat, b: nat)
    requires a <= b <= |s|
  {
    forall k :: a <= k < b ==> InClass(cls, s[k])
  }

  /**
    The length of the longest run of `cls` chars starting at `j`: what a greedy
    `cls*` consumes there.
   */
  function Run(cls: CharClass, s: string, j: nat): (n: nat)
    requires j <= |s|
    ensures j + n <= |s|
    ensures AllIn(cls, s, j, j + n)
    ensures j + n < |s| ==> !InClass(cls, s[j + n])
    decreases |s| - j
  {
    if j < |s| && InClass(cls, s[j]) then 1 + Run(cls, s, j + 1) else 0
  }

  /** No run of `cls` from `j` goes past the greedy one, and a run that stops at a non-member is the greedy one. */
  lemma RunIsLongest(cls: CharClass, s: string, j: nat, k: nat)
    requires j <= k <= |s| && AllIn(cls, s, j, k)
    ensures k <= j + Run(cls, s, j)
    ensures (k == |s| || !InClass(cls, s[k])) ==> k == j + Run(cls, s, j)
  {
  }

  /** Every char of `s[a..b]` also occurs in `s`. */
  lemma SliceCharsIn(s: string, a: nat, b: nat)
    requires a <= b <= |s|
    ensures forall c :: c in s[a..b] ==> c in s
  {
    forall c | c in s[a..b]
      ensures c in s
    {
      var k :| 0 <= k < b - a && s[a..b][k] == c;
      assert s[a + k] == c;
    }
  }

  /** `w` occurs in `s` at position `i`. */
  predicate HasAt(s: string, i: nat, w: string) {
    i + |w| <= |s| && forall k :: 0 <= k < |w| ==> s[i + k] == w[k]
  }

  /** An occurrence of `w` at `i` starts with the first char of `w`. */
  lemma HasAtHead(s: string, i: nat, w: string)
    requires |w| > 0
    ensures HasAt(s, i, w) ==> s[i] == w[0]
  {
    if HasAt(s, i, w) {
      assert s[i + 0] == w[0];
    }
  }

  /** Java's `\b` at position `p`: exactly one of the chars around `p` is a word char. */
  predicate IsWordBoundary(s: string, p: nat)
    requires p <= |s|
  {
    (0 < p && IsWordChar(s[p - 1])) != (p < |s| && IsWordChar(s[p]))
  }

  /**
    Java's `$` without MULTILINE at position `p`: the end of the input, or just before a
    final line terminator (a final "\r\n" counts as one, and `$` never falls between them).
   */
  predicate IsEndAnchor(s: string, p: nat)
    requires p <= |s|
  {
    || p == |s|
    || (p + 1 == |s| && IsLineTerminator(s[p]) && !(s[p] == '\n' && 0 < p && s[p - 1] == '\r'))
    || (p + 2 == |s| && s[p] == '\r' && s[p + 1] == '\n')
  }
}
