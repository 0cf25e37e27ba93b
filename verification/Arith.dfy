/** The few facts of multiplication, division and remainder by a variable that sector offsets need, and bitwise or. */
module Arith {

  function Min(a: nat, b: nat): nat {
    if a < b then a else b
  }

  lemma MulLe(a: nat, b: nat, d: nat)
    requires a <= b
    ensures a * d <= b * d && d * a <= d * b
  {
    assert (b - a) * d >= 0;
    assert b * d == a * d + (b - a) * d;
  }

  /** Block `a` of size `d` ends where block `a + 1` starts, so it lies before any later block. */
  lemma BlockBefore(a: nat, b: nat, d: nat)
    requires a < b
    ensures a * d + d <= b * d
  {
    MulLe(a + 1, b, d);
    assert (a + 1) * d == a * d + d;
  }

  lemma DivUnique(x: int, d: nat, q: int, r: nat)
    requires x == d * q + r && r < d
    ensures x / d == q && x % d == r
  {
    var q', r' := x / d, x % d;
    assert x == d * q' + r' && 0 <= r' < d;
    if q < q' {
      assert d * (q + 1) <= d * q' by { MulLeInt(q + 1, q', d); }
    } else if q' < q {
      assert d * (q' + 1) <= d * q by { MulLeInt(q' + 1, q, d); }
    }
  }

  lemma MulLeInt(a: int, b: int, d: nat)
    requires a <= b
    ensures d * a <= d * b
  {
    assert d * (b - a) >= 0;
    assert d * b == d * a + d * (b - a);
  }

  lemma MultipleMod(d: nat, q: nat, r: nat)
    requires r < d
    ensures (d * q + r) % d == r && (d * q + r) / d == q
  {
    DivUnique(d * q + r, d, q, r);
  }

  /** Distinct numbers below `n` are at most `n`. */
  lemma {:induction false} DistinctBounded(s: seq<nat>, n: nat)
    requires forall i, j :: 0 <= i < j < |s| ==> s[i] != s[j]
    requires forall i :: 0 <= i < |s| ==> s[i] < n
    ensures |s| <= n
  {
    if s != [] {
      assert s[0] < n;
      if k :| 0 <= k < |s| && s[k] == n - 1 {
        DistinctBounded(s[..k] + s[k + 1..], n - 1);
      } else {
        DistinctBounded(s, n - 1);
      }
    }
  }

  // ---------------------------------------------------------------- bitwise or

  function Or(a: nat, b: nat): nat {
    if a == 0 then b else if b == 0 then a else 2 * Or(a / 2, b / 2) + if a % 2 == 1 || b % 2 == 1 then 1 else 0
  }

  function Pow2(k: nat): (p: nat)
    ensures p > 0
  {
    if k == 0 then 1 else 2 * Pow2(k - 1)
  }

  lemma Pow2Eight()
    ensures Pow2(8) == 0x100
  {
    assert Pow2(4) == 16;
  }

  lemma OrZero(a: nat)
    ensures Or(0, a) == a && Or(a, 0) == a
  {
  }

  lemma OrHalves(a: nat, b: nat)
    ensures Or(a, b) == 2 * Or(a / 2, b / 2) + if a % 2 == 1 || b % 2 == 1 then 1 else 0
  {
  }

  /** The upper and the lower bits are put together on their own. */
  lemma {:induction false} OrSplit(k: nat, a: nat, b: nat, x: nat, y: nat)
    requires x < Pow2(k) && y < Pow2(k)
    ensures Or(a * Pow2(k) + x, b * Pow2(k) + y) == Or(a, b) * Pow2(k) + Or(x, y)
  {
    hide Or;
    if k == 0 {
      assert Or(0, 0) == 0 by { OrHalves(0, 0); }
    } else {
      var p := Pow2(k - 1);
      var u, v, w := a * p, b * p, Or(a, b) * p;
      assert a * Pow2(k) == 2 * u && b * Pow2(k) == 2 * v && Or(a, b) * Pow2(k) == 2 * w;
      OrHalves(2 * u + x, 2 * v + y);
      OrHalves(x, y);
      OrSplit(k - 1, a, b, x / 2, y / 2);
      assert (2 * u + x) / 2 == u + x / 2 && (2 * v + y) / 2 == v + y / 2;
    }
  }

  lemma {:induction false} OrOnes(k: nat, a: nat)
    requires a < Pow2(k)
    ensures Or(a, Pow2(k) - 1) == Pow2(k) - 1
  {
    OrHalves(a, Pow2(k) - 1);
    if k > 0 {
      hide Or;
      OrOnes(k - 1, a / 2);
    }
  }
}
