/** Comparison of names without regard to case: character by character, after folding. */
module NameOrder {

  /** Negative, zero or positive as `a` is below, the same as or above `b`. */
  function Compare(a: string, b: string, fold: char -> char): int {
    if a == "" then (if b == "" then 0 else -1)
    else if b == "" then 1
    else if fold(a[0]) != fold(b[0]) then fold(a[0]) as int - fold(b[0]) as int
    else Compare(a[1..], b[1..], fold)
  }

  predicate Same(a: string, b: string, fold: char -> char) {
    Compare(a, b, fold) == 0
  }

  predicate Below(a: string, b: string, fold: char -> char) {
    Compare(a, b, fold) < 0
  }

  lemma {:induction false} CompareSelf(a: string, fold: char -> char)
    ensures Compare(a, a, fold) == 0
  {
    if a != "" {
      CompareSelf(a[1..], fold);
    }
  }

  lemma {:induction false} CompareFlip(a: string, b: string, fold: char -> char)
    ensures Compare(a, b, fold) < 0 <==> Compare(b, a, fold) > 0
    ensures Compare(a, b, fold) == 0 <==> Compare(b, a, fold) == 0
  {
    if a != "" && b != "" {
      CompareFlip(a[1..], b[1..], fold);
    }
  }

  /** A total preorder: comparisons chain, and strictly if one of them is strict. */
  lemma {:induction false} CompareChain(a: string, b: string, c: string, fold: char -> char)
    requires Compare(a, b, fold) <= 0 && Compare(b, c, fold) <= 0
    ensures Compare(a, c, fold) <= 0
    ensures Compare(a, c, fold) == 0 <==> Compare(a, b, fold) == 0 && Compare(b, c, fold) == 0
  {
    if a != "" && b != "" && c != "" && fold(a[0]) == fold(b[0]) == fold(c[0]) {
      CompareChain(a[1..], b[1..], c[1..], fold);
    }
  }

  /** Names compare as the same exactly when they fold to the same characters. */
  lemma {:induction false} SameIs(a: string, b: string, fold: char -> char)
    ensures Same(a, b, fold) <==> |a| == |b| && forall i :: 0 <= i < |a| ==> fold(a[i]) == fold(b[i])
  {
    if a != "" && b != "" {
      SameIs(a[1..], b[1..], fold);
      if Same(a, b, fold) {
        forall i | 0 <= i < |a|
          ensures fold(a[i]) == fold(b[i])
        {
          assert i > 0 ==> fold(a[1..][i - 1]) == fold(b[1..][i - 1]);
        }
      } else if |a| == |b| && fold(a[0]) == fold(b[0]) {
        var i :| 0 <= i < |a| - 1 && fold(a[1..][i]) != fold(b[1..][i]);
        assert fold(a[i + 1]) != fold(b[i + 1]);
      }
    }
  }

  /** The first `k` characters fold alike; then `a` ends before `b`, or has the smaller character. */
  predicate PrecedesAt(a: string, b: string, k: nat, fold: char -> char) {
    && k <= |a| && k <= |b| && (forall i :: 0 <= i < k ==> fold(a[i]) == fold(b[i]))
    && (k == |a| < |b| || (k < |a| && k < |b| && fold(a[k]) < fold(b[k])))
  }

  /** The order is that of a dictionary, character by character after folding. */
  lemma {:induction false} BelowIs(a: string, b: string, fold: char -> char)
    ensures Below(a, b, fold) <==> exists k: nat :: PrecedesAt(a, b, k, fold)
  {
    if a == "" || b == "" || fold(a[0]) != fold(b[0]) {
      assert Below(a, b, fold) ==> PrecedesAt(a, b, 0, fold);
      assert forall k: nat :: PrecedesAt(a, b, k, fold) ==> k == 0;
    } else {
      BelowIs(a[1..], b[1..], fold);
      forall k: nat
        ensures PrecedesAt(a, b, k + 1, fold) <==> PrecedesAt(a[1..], b[1..], k, fold)
      {
        PrecedesTail(a, b, k, fold);
      }
      if Below(a, b, fold) {
        var k: nat :| PrecedesAt(a[1..], b[1..], k, fold);
        assert PrecedesAt(a, b, k + 1, fold);
      }
      if k: nat :| PrecedesAt(a, b, k, fold) {
        assert PrecedesAt(a[1..], b[1..], k - 1, fold);
      }
    }
  }

  lemma PrecedesTail(a: string, b: string, k: nat, fold: char -> char)
    requires a != "" && b != "" && fold(a[0]) == fold(b[0])
    ensures PrecedesAt(a, b, k + 1, fold) <==> PrecedesAt(a[1..], b[1..], k, fold)
  {
    if PrecedesAt(a, b, k + 1, fold) {
      assert forall i :: 0 <= i < k ==> a[1..][i] == a[i + 1] && b[1..][i] == b[i + 1];
    }
    if PrecedesAt(a[1..], b[1..], k, fold) {
      forall i | 0 <= i < k + 1
        ensures fold(a[i]) == fold(b[i])
      {
        assert i > 0 ==> a[i] == a[1..][i - 1] && b[i] == b[1..][i - 1];
      }
    }
  }
}
