/**
  `containsPaymentKeyword`: the coarse filter that lets a notification through to parsing.
 */
module Keywords {
  import opened Chars
  import opened Spans
  import opened Text
  import opened Config
  import opened Wrappers

  /** Some keyword of `ws` occurs in `s`. */
  function AnyContained(s: string, ws: seq<string>): (r: bool)
    ensures r <==> exists k :: 0 <= k < |ws| && Contains(s, ws[k])
  {
    if ws == [] then false
    else Contains(s, ws[0]) || AnyContained(s, ws[1..])
  }

  /**
    `containsPaymentKeyword(s)`: false for null, otherwise whether the lower-cased text
    holds one of the lower-case keywords or the text itself holds one of the Chinese ones.
   */
  function ContainsPaymentKeyword(rev: Revision, s: Option<string>): bool {
    match s
    case None => false
    case Some(t) => AnyContained(Lower(t), LowerKeywords(rev)) || AnyContained(t, ExactKeywords(rev))
  }

  /**
    The longer keywords add nothing: "purchased" holds "purchase", "refunded" holds
    "refund", "已支付" holds "支付" and "已付款" holds "付款". The gate is equivalent to this
    shorter list.
   */
  lemma GateReducesToShortKeywords(rev: Revision, t: string)
    ensures ContainsPaymentKeyword(rev, Some(t)) <==>
      var l := Lower(t);
      || Contains(l, "paid") || Contains(l, "payment") || Contains(l, "purchase")
      || Contains(t, "支付") || Contains(t, "付款")
      || (rev == Current && (Contains(l, "refund") || Contains(t, "扣款") || Contains(t, "退款")))
  {
    LowerGateIsShort(rev, Lower(t));
    ExactGateIsShort(rev, t);
  }

  lemma LowerGateIsShort(rev: Revision, l: string)
    ensures AnyContained(l, LowerKeywords(rev)) <==>
      || Contains(l, "paid") || Contains(l, "payment") || Contains(l, "purchase")
      || (rev == Current && Contains(l, "refund"))
  {
    var lk := LowerKeywords(rev);
    if AnyContained(l, lk) {
      var k :| 0 <= k < |lk| && Contains(l, lk[k]);
      if k == 3 {
        assert lk[k] == "" + "purchase" + "d";
        ContainsPart(l, "", "purchase", "d");
      } else if k == 4 {
        assert lk[k] == "" + "refund" + "ed";
        ContainsPart(l, "", "refund", "ed");
      } else if k == 0 {
        assert lk[k] == "paid";
      } else if k == 1 {
        assert lk[k] == "payment";
      } else if k == 2 {
        assert lk[k] == "purchase";
      } else {
        assert lk[k] == "refund";
      }
    }
    if Contains(l, "paid") {
      assert Contains(l, lk[0]);
    }
    if Contains(l, "payment") {
      assert Contains(l, lk[1]);
    }
    if Contains(l, "purchase") {
      assert Contains(l, lk[2]);
    }
    if rev == Current && Contains(l, "refund") {
      assert Contains(l, lk[5]);
    }
  }

  lemma ExactGateIsShort(rev: Revision, t: string)
    ensures AnyContained(t, ExactKeywords(rev)) <==>
      || Contains(t, "支付") || Contains(t, "付款")
      || (rev == Current && (Contains(t, "扣款") || Contains(t, "退款")))
  {
    var ek := ExactKeywords(rev);
    if AnyContained(t, ek) {
      var k :| 0 <= k < |ek| && Contains(t, ek[k]);
      if ek[k] == "已支付" {
        assert "已支付" == "已" + "支付" + "";
        ContainsPart(t, "已", "支付", "");
      } else if ek[k] == "已付款" {
        assert "已付款" == "已" + "付款" + "";
        ContainsPart(t, "已", "付款", "");
      } else if k == 0 {
        assert ek[k] == "支付";
      } else if k == 1 {
        assert ek[k] == "付款";
      } else if k == 2 {
        assert rev == Current && ek[k] == "扣款";
      } else {
        assert rev == Current && ek[k] == "退款";
      }
    }
    if Contains(t, "支付") {
      assert Contains(t, ek[0]);
    }
    if Contains(t, "付款") {
      assert Contains(t, ek[1]);
    }
    if rev == Current && Contains(t, "扣款") {
      assert Contains(t, ek[2]);
    }
    if rev == Current && Contains(t, "退款") {
      assert Contains(t, ek[5]);
    }
  }

  /** `w` has no ASCII letter, so lower-casing cannot create or destroy an occurrence of it. */
  predicate LetterFree(w: string) {
    forall k :: 0 <= k < |w| ==> !IsAsciiLetter(w[k])
  }

  /** A letter-free word occurs in `s` exactly where it occurs in `Lower(s)`. */
  lemma LowerKeepsLetterFreeWords(s: string, w: string, j: nat)
    requires LetterFree(w)
    ensures HasAt(s, j, w) <==> HasAt(Lower(s), j, w)
  {
    if j + |w| <= |s| {
      if HasAt(Lower(s), j, w) {
        forall k | 0 <= k < |w|
          ensures s[j + k] == w[k]
        {
          assert Lower(s)[j + k] == Lower(s)[j..j + |w|][k] == w[k];
        }
        assert s[j..j + |w|] == w;
      }
      if HasAt(s, j, w) {
        forall k | 0 <= k < |w|
          ensures Lower(s)[j + k] == w[k]
        {
          assert s[j + k] == s[j..j + |w|][k] == w[k];
        }
        assert Lower(s)[j..j + |w|] == w;
      }
    }
  }

  lemma ContainsLetterFree(s: string, w: string)
    requires LetterFree(w)
    ensures Contains(s, w) <==> Contains(Lower(s), w)
  {
    forall j: nat
      ensures HasAt(s, j, w) <==> HasAt(Lower(s), j, w)
    {
      LowerKeepsLetterFreeWords(s, w, j);
    }
  }

  lemma {:induction false} AnyContainedLetterFree(s: string, t: string, ws: seq<string>)
    requires Lower(s) == Lower(t)
    requires forall k :: 0 <= k < |ws| ==> LetterFree(ws[k])
    ensures AnyContained(s, ws) == AnyContained(t, ws)
  {
    if ws != [] {
      ContainsLetterFree(s, ws[0]);
      ContainsLetterFree(t, ws[0]);
      AnyContainedLetterFree(s, t, ws[1..]);
    }
  }

  lemma ExactKeywordsAreLetterFree(rev: Revision)
    ensures forall k :: 0 <= k < |ExactKeywords(rev)| ==> LetterFree(ExactKeywords(rev)[k])
  {
    assert LetterFree("支付") && LetterFree("付款") && LetterFree("扣款");
    assert LetterFree("已支付") && LetterFree("已付款") && LetterFree("退款");
  }

  /** The gate ignores ASCII case: texts that lower-case alike pass or fail together. */
  lemma GateIgnoresCase(rev: Revision, s: string, t: string)
    requires Lower(s) == Lower(t)
    ensures ContainsPaymentKeyword(rev, Some(s)) == ContainsPaymentKeyword(rev, Some(t))
  {
    ExactKeywordsAreLetterFree(rev);
    AnyContainedLetterFree(s, t, ExactKeywords(rev));
  }

  /** Every notification the legacy gate lets through, the current gate lets through too. */
  lemma LegacyGateImpliesCurrent(s: Option<string>)
    ensures ContainsPaymentKeyword(Legacy, s) ==> ContainsPaymentKeyword(Current, s)
  {
    if s.Some? {
      var t := s.value;
      if AnyContained(Lower(t), LowerKeywords(Legacy)) {
        var k :| 0 <= k < 4 && Contains(Lower(t), LowerKeywords(Legacy)[k]);
        assert LowerKeywords(Current)[k] == LowerKeywords(Legacy)[k];
      }
      if AnyContained(t, ExactKeywords(Legacy)) {
        var k :| 0 <= k < 4 && Contains(t, ExactKeywords(Legacy)[k]);
        var k2 := if k < 2 then k else k + 1;
        assert ExactKeywords(Current)[k2] == ExactKeywords(Legacy)[k];
      }
    }
  }
}
