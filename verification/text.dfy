/**
  The `java.lang.String` and `StringBuilder` operations the listener uses, on `seq<char>`:
  `contains`, `toLowerCase(Locale.ROOT)` (ASCII part), `trim`, `replace(char, char)`, and
  the listener's own `joinNonBlank`.
 */
module Text {
  import opened Chars
  import opened Spans

  // ---------------------------------------------------------------------------
  // contains

  function ContainsFrom(s: string, w: string, i: nat): (r: bool)
    requires i <= |s|
    ensures r <==> exists j: nat :: i <= j && HasAt(s, j, w)
    decreases |s| - i
  {
    HasAt(s, i, w) || (i < |s| && ContainsFrom(s, w, i + 1))
  }

  /** `s.contains(w)`: `w` occurs somewhere in `s`. */
  function Contains(s: string, w: string): (r: bool)
    ensures r <==> exists j: nat :: HasAt(s, j, w)
  {
    ContainsFrom(s, w, 0)
  }

  /** Whatever contains `w` contains every part of `w`. */
  lemma ContainsPart(s: string, u: string, w: string, v: string)
    requires Contains(s, u + w + v)
    ensures Contains(s, w)
  {
    var j: nat :| HasAt(s, j, u + w + v);
    var x := u + w + v;
    assert s[j..j + |x|] == x;
    assert s[j + |u|..j + |u| + |w|] == s[j..j + |x|][|u|..|u| + |w|];
    assert x[|u|..|u| + |w|] == w;
    assert HasAt(s, j + |u|, w);
  }

  /** A word cannot occur where its first char does not. */
  lemma ContainsNeedsHead(s: string, w: string)
    requires |w| > 0 && w[0] !in s
    ensures !Contains(s, w)
  {
    forall j: nat | HasAt(s, j, w)
      ensures false
    {
      HasAtHead(s, j, w);
    }
  }

  // ---------------------------------------------------------------------------
  // toLowerCase

  /** `s.toLowerCase(Locale.ROOT)` on ASCII letters; every other char is kept. */
  function Lower(s: string): (r: string)
    ensures |r| == |s| && forall k :: 0 <= k < |s| ==> r[k] == ToLower(s[k])
  {
    seq(|s|, k requires 0 <= k < |s| => ToLower(s[k]))
  }

  // ---------------------------------------------------------------------------
  // trim

  /** The number of trimmable chars at the front of `s[a..]`. */
  function TrimStart(s: string, a: nat): (b: nat)
    requires a <= |s|
    ensures a <= b <= |s|
    ensures forall k :: a <= k < b ==> IsTrimmable(s[k])
    ensures b < |s| ==> !IsTrimmable(s[b])
    decreases |s| - a
  {
    if a < |s| && IsTrimmable(s[a]) then TrimStart(s, a + 1) else a
  }

  /** Where `s[a..b]` ends once its trimmable tail is dropped. */
  function TrimEnd(s: string, a: nat, b: nat): (e: nat)
    requires a <= b <= |s|
    ensures a <= e <= b
    ensures forall k :: e <= k < b ==> IsTrimmable(s[k])
    ensures a < e ==> !IsTrimmable(s[e - 1])
    decreases b
  {
    if a < b && IsTrimmable(s[b - 1]) then TrimEnd(s, a, b - 1) else b
  }

  /**
    `s[a..b]` is what trimming leaves: every char outside it is `<= ' '`, and it is either
    empty (and then so is the trim of all of `s`) or starts and ends with a char above `' '`.
   */
  predicate IsTrimSpan(s: string, a: nat, b: nat) {
    a <= b <= |s| &&
    (forall k :: 0 <= k < a ==> IsTrimmable(s[k])) &&
    (forall k :: b <= k < |s| ==> IsTrimmable(s[k])) &&
    (if a == b then forall k :: 0 <= k < |s| ==> IsTrimmable(s[k])
     else !IsTrimmable(s[a]) && !IsTrimmable(s[b - 1]))
  }

  /** `s.trim()`: the slice of `s` left after dropping every char `<= ' '` at both ends. */
  function Trim(s: string): (r: string)
    ensures exists a: nat, b: nat :: IsTrimSpan(s, a, b) && r == s[a..b]
  {
    var a := TrimStart(s, 0);
    var b := TrimEnd(s, a, |s|);
    assert IsTrimSpan(s, a, b);
    s[a..b]
  }

  /** There is only one trim span, so the contract of `Trim` determines it. */
  lemma TrimIsUnique(s: string, a: nat, b: nat)
    requires IsTrimSpan(s, a, b)
    ensures Trim(s) == s[a..b]
  {
    var a0 := TrimStart(s, 0);
    var b0 := TrimEnd(s, a0, |s|);
    if a < b {
      assert a0 == a;
      assert b0 == b;
    } else {
      assert a0 == |s|;
    }
  }

  /** Trimming twice changes nothing. */
  lemma TrimIsIdempotent(s: string)
    ensures Trim(Trim(s)) == Trim(s)
  {
    var r := Trim(s);
    var a: nat, b: nat :| IsTrimSpan(s, a, b) && r == s[a..b];
    assert r[0..|r|] == r;
    if r != [] {
      assert r[0] == s[a] && r[|r| - 1] == s[b - 1];
    }
    TrimIsUnique(r, 0, |r|);
  }

  /** `s.trim()` is empty exactly when every char of `s` is trimmable. */
  lemma TrimIsEmptyIff(s: string)
    ensures Trim(s) == [] <==> forall k :: 0 <= k < |s| ==> IsTrimmable(s[k])
  {
    var r := Trim(s);
    var a: nat, b: nat :| IsTrimSpan(s, a, b) && r == s[a..b];
  }

  /** A non-empty trim starts with a char above `' '`. */
  lemma TrimHead(s: string)
    ensures Trim(s) != [] ==> !IsTrimmable(Trim(s)[0])
  {
    var r := Trim(s);
    var a: nat, b: nat :| IsTrimSpan(s, a, b) && r == s[a..b];
    if r != [] {
      assert r[0] == s[a];
    }
  }

  /** A non-empty trim ends with a char above `' '`. */
  lemma TrimTail(s: string)
    ensures Trim(s) != [] ==> !IsTrimmable(Trim(s)[|Trim(s)| - 1])
  {
    var r := Trim(s);
    var a: nat, b: nat :| IsTrimSpan(s, a, b) && r == s[a..b];
    if r != [] {
      assert r[|r| - 1] == s[b - 1];
    }
  }

  /** Trimming keeps a slice, so it brings in no char that was not there. */
  lemma TrimKeepsChars(s: string)
    ensures forall c :: c in Trim(s) ==> c in s
  {
    var r := Trim(s);
    var a: nat, b: nat :| IsTrimSpan(s, a, b) && r == s[a..b];
    SliceCharsIn(s, a, b);
  }

  // ---------------------------------------------------------------------------
  // replace

  /** `s.replace(c, d)`: every `c` becomes `d`. */
  function ReplaceChar(s: string, c: char, d: char): (r: string)
    ensures |r| == |s|
    ensures forall k :: 0 <= k < |s| ==> r[k] == (if s[k] == c then d else s[k])
  {
    seq(|s|, k requires 0 <= k < |s| => if s[k] == c then d else s[k])
  }

  // ---------------------------------------------------------------------------
  // joinNonBlank

  /** One step of the listener's `joinNonBlank` loop: skip an empty part, else append it after a separator when the builder already holds text. */
  function AppendNonBlank(sep: string, acc: string, part: string): string {
    if part == [] then acc
    else if |acc| > 0 then acc + sep + part
    else acc + part
  }

  /** The loop of `joinNonBlank` over `parts`, started with `acc` in the builder. */
  function JoinLoop(sep: string, acc: string, parts: seq<string>): string
    decreases |parts|
  {
    if parts == [] then acc else JoinLoop(sep, AppendNonBlank(sep, acc, parts[0]), parts[1..])
  }

  /** `joinNonBlank(sep, parts...)`: the listener's concatenation of the non-empty parts. */
  function JoinNonBlank(sep: string, parts: seq<string>): string {
    JoinLoop(sep, [], parts)
  }

  /** The non-empty parts, in order. */
  function NonEmpty(parts: seq<string>): (r: seq<string>)
    ensures forall k :: 0 <= k < |r| ==> r[k] != []
    ensures |r| <= |parts|
    ensures r == [] <==> forall k :: 0 <= k < |parts| ==> parts[k] == []
  {
    if parts == [] then []
    else (if parts[0] == [] then [] else [parts[0]]) + NonEmpty(parts[1..])
  }

  /** `xs[0] + sep + xs[1] + sep + ... + xs[n - 1]`. */
  function Join(sep: string, xs: seq<string>): string
    decreases |xs|
  {
    if xs == [] then []
    else if |xs| == 1 then xs[0]
    else Join(sep, xs[..|xs| - 1]) + sep + xs[|xs| - 1]
  }

  lemma JoinIsEmptyIff(sep: string, xs: seq<string>)
    requires forall k :: 0 <= k < |xs| ==> xs[k] != []
    ensures Join(sep, xs) == [] <==> xs == []
  {
    if |xs| > 1 {
      assert |Join(sep, xs)| >= |xs[|xs| - 1]| > 0;
    }
  }

  /** Appending to a non-empty join continues it. */
  lemma AppendContinuesJoin(sep: string, xs: seq<string>, p: string)
    requires forall k :: 0 <= k < |xs| ==> xs[k] != []
    requires p != []
    ensures AppendNonBlank(sep, Join(sep, xs), p) == Join(sep, xs + [p])
  {
    JoinIsEmptyIff(sep, xs);
    assert (xs + [p])[..|xs|] == xs;
  }

  lemma {:induction false} JoinLoopContinuesJoin(sep: string, xs: seq<string>, rest: seq<string>)
    requires forall k :: 0 <= k < |xs| ==> xs[k] != []
    ensures JoinLoop(sep, Join(sep, xs), rest) == Join(sep, xs + NonEmpty(rest))
    decreases |rest|
  {
    if rest == [] {
      assert xs + NonEmpty(rest) == xs;
    } else if rest[0] == [] {
      JoinLoopContinuesJoin(sep, xs, rest[1..]);
      JoinLoopSkipsEmpty(sep, Join(sep, xs), rest);
    } else {
      var p := rest[0];
      AppendContinuesJoin(sep, xs, p);
      JoinLoopContinuesJoin(sep, xs + [p], rest[1..]);
      JoinLoopTakesPart(sep, xs, rest);
    }
  }

  lemma JoinLoopSkipsEmpty(sep: string, acc: string, rest: seq<string>)
    requires rest != [] && rest[0] == []
    ensures JoinLoop(sep, acc, rest) == JoinLoop(sep, acc, rest[1..])
    ensures NonEmpty(rest) == NonEmpty(rest[1..])
  {
  }

  lemma JoinLoopTakesPart(sep: string, xs: seq<string>, rest: seq<string>)
    requires rest != [] && rest[0] != []
    ensures JoinLoop(sep, Join(sep, xs), rest) == JoinLoop(sep, AppendNonBlank(sep, Join(sep, xs), rest[0]), rest[1..])
    ensures xs + NonEmpty(rest) == xs + [rest[0]] + NonEmpty(rest[1..])
  {
    assert NonEmpty(rest) == [rest[0]] + NonEmpty(rest[1..]);
  }

  /**
    `joinNonBlank` puts exactly one separator between consecutive non-empty parts and
    none at either end; it returns "" exactly when every part is empty.
   */
  lemma JoinNonBlankJoinsNonEmpty(sep: string, parts: seq<string>)
    ensures JoinNonBlank(sep, parts) == Join(sep, NonEmpty(parts))
    ensures JoinNonBlank(sep, parts) == [] <==> forall k :: 0 <= k < |parts| ==> parts[k] == []
  {
    JoinLoopContinuesJoin(sep, [], parts);
    assert [] + NonEmpty(parts) == NonEmpty(parts);
    JoinIsEmptyIff(sep, NonEmpty(parts));
  }
}
