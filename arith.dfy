/** Integer helpers shared by the host, device and vmath models: the sum that
    every reduction computes, C's truncating division, and the ceiling
    quotient used for lag counts and reduction-pass sizes. */
module Arith {

  function Abs(x: int): nat
  {
    if x < 0 then -x else x
  }

  function Min(x: int, y: int): int
  {
    if x <= y then x else y
  }

  function Max(x: int, y: int): int
  {
    if x <= y then y else x
  }

  /** The sum of a sequence, added up from the left as a sequential loop would. */
  function Sum(s: seq<int>): int
    decreases |s|
  {
    if |s| == 0 then 0 else Sum(s[..|s| - 1]) + s[|s| - 1]
  }

  /** One step of a left-to-right accumulation loop. */
  lemma SumPrefixStep(s: seq<int>, i: nat)
    requires i < |s|
    ensures Sum(s[..i + 1]) == Sum(s[..i]) + s[i]
  {
    assert s[..i + 1][..i] == s[..i];
  }

  /** Sums split over concatenation: the fact a chunked or parallel reduction relies on. */
  lemma {:induction false} SumConcat(s: seq<int>, t: seq<int>)
    ensures Sum(s + t) == Sum(s) + Sum(t)
    decreases |t|
  {
    if |t| == 0 {
      assert s + t == s;
    } else {
      var u := t[..|t| - 1];
      assert (s + t)[..|s + t| - 1] == s + u;
      SumConcat(s, u);
    }
  }

  /** Any split point gives the same total. */
  lemma SplitSum(s: seq<int>, k: nat)
    requires k <= |s|
    ensures Sum(s) == Sum(s[..k]) + Sum(s[k..])
  {
    assert s == s[..k] + s[k..];
    SumConcat(s[..k], s[k..]);
  }

  /** A reduction may add the elements in any order: the sum depends only on the multiset. */
  lemma {:induction false} SumPermutation(s: seq<int>, t: seq<int>)
    requires multiset(s) == multiset(t)
    ensures Sum(s) == Sum(t)
    decreases |s|
  {
    if |s| == 0 {
      assert |t| == |multiset(t)| == 0;
    } else {
      var x := s[|s| - 1];
      var init := s[..|s| - 1];
      assert s == init + [x];
      assert x in multiset(t);
      var k :| 0 <= k < |t| && t[k] == x;
      var rest := t[..k] + t[k + 1..];
      assert t == t[..k] + [x] + t[k + 1..];
      assert multiset(rest) == multiset(init) by {
        calc {
          multiset(t);
          multiset(t[..k] + [x] + t[k + 1..]);
          multiset(t[..k]) + multiset{x} + multiset(t[k + 1..]);
          multiset(rest) + multiset{x};
        }
        calc {
          multiset(s);
          multiset(init + [x]);
          multiset(init) + multiset{x};
        }
        assert multiset(rest) == multiset(t) - multiset{x};
        assert multiset(init) == multiset(s) - multiset{x};
      }
      SumPermutation(init, rest);
      SumConcat(t[..k], [x]);
      SumConcat(t[..k] + [x], t[k + 1..]);
      SumConcat(t[..k], t[k + 1..]);
    }
  }

  /** A sum of non-negative terms is non-negative, and zero exactly when every term is. */
  lemma {:induction false} SumZeroIffAllZero(s: seq<int>)
    requires forall i :: 0 <= i < |s| ==> s[i] >= 0
    ensures Sum(s) >= 0
    ensures Sum(s) == 0 <==> forall i :: 0 <= i < |s| ==> s[i] == 0
    decreases |s|
  {
    if |s| > 0 {
      var init := s[..|s| - 1];
      SumZeroIffAllZero(init);
      if Sum(s) == 0 {
        forall i | 0 <= i < |s| ensures s[i] == 0 {
          if i < |s| - 1 {
            assert s[i] == init[i];
          }
        }
      }
    }
  }

  /** A sum of terms each at most m is at most |s| * m. */
  lemma {:induction false} SumAtMost(s: seq<int>, m: int)
    requires forall i :: 0 <= i < |s| ==> s[i] <= m
    ensures Sum(s) <= |s| * m
    decreases |s|
  {
    if |s| > 0 {
      SumAtMost(s[..|s| - 1], m);
    }
  }

  /** A sum of |s| copies of c is |s| * c. */
  lemma {:induction false} SumConstant(s: seq<int>, c: int)
    requires forall i :: 0 <= i < |s| ==> s[i] == c
    ensures Sum(s) == |s| * c
    decreases |s|
  {
    if |s| > 0 {
      SumConstant(s[..|s| - 1], c);
    }
  }

  /** Integer division as C and C++ define it for int and long: the quotient is
      truncated toward zero. Division by zero is undefined behaviour there, so
      the divisor must be non-zero. */
  function CDiv(x: int, y: int): int
    requires y != 0
  {
    if x >= 0 && y > 0 then x / y
    else if x >= 0 then -(x / -y)
    else if y > 0 then -(-x / y)
    else -x / -y
  }

  /** CDiv meets the C standard's definition: the remainder x - q*y is smaller
      in magnitude than y and is zero or has the sign of x. */
  lemma CDivTruncates(x: int, y: int)
    requires y != 0
    ensures Abs(x - CDiv(x, y) * y) < Abs(y)
    ensures x - CDiv(x, y) * y == 0 || (x - CDiv(x, y) * y > 0) == (x > 0)
  {
    var a: int := if x >= 0 then x else -x;
    var b: int := if y > 0 then y else -y;
    var d: int := a / b;
    EuclidNat(a, b);
    var q := CDiv(x, y);
    if x >= 0 && y > 0 {
      assert q * y == d * b;
    } else if x >= 0 {
      NegMul(d, b);
      assert q * y == d * b;
    } else if y > 0 {
      NegMul(d, b);
      assert q * y == -(d * b);
    } else {
      NegMul(d, b);
      assert q * y == -(d * b);
    }
  }

  lemma NegMul(p: int, q: int)
    ensures (-p) * q == -(p * q) && p * (-q) == -(p * q) && (-p) * (-q) == p * q
  {
  }

  lemma EuclidNat(a: int, b: int)
    requires a >= 0 && b > 0
    ensures a == (a / b) * b + a % b && 0 <= a % b < b
  {
  }

  lemma DivNonNeg(x: int, k: int)
    requires x >= 0 && k > 0
    ensures x / k >= 0
    ensures x == 0 ==> x / k == 0
  {
  }

  lemma MulMonotone(p: int, q: int, d: int)
    requires p <= q && d >= 0
    ensures p * d <= q * d
  {
    assert q * d - p * d == (q - p) * d;
  }

  lemma MulCancelLess(p: int, q: int, d: int)
    requires d > 0 && p * d < q * d
    ensures p < q
  {
    assert (q - p) * d == q * d - p * d;
  }

  /** Dividing a non-negative total by a positive count never exceeds a
      bound that every average of the terms would meet. */
  lemma DivAtMost(s: int, k: int, bound: int)
    requires s >= 0 && k > 0 && s <= k * bound
    ensures 0 <= s / k <= bound
  {
    var q := s / k;
    assert k * bound == bound * k;
    EuclidNat(s, k);
    assert q * k <= s;
    assert (bound + 1) * k == bound * k + k;
    MulCancelLess(q, bound + 1, k);
  }

  /** Exact division: (g * k) / k == g. */
  lemma MulDivCancel(g: int, k: int)
    requires k > 0
    ensures (g * k) / k == g
  {
    var q, r := (g * k) / k, (g * k) % k;
    assert g * k == q * k + r && 0 <= r < k;
    assert (g - q) * k == r;
    assert 1 * k == k;
    MulCancelLess(g - q, 1, k);
    assert (-1) * k == -k;
    MulCancelLess(-1, g - q, k);
  }

  /** ceil(x / y) for natural numbers. */
  function CeilDiv(x: nat, y: nat): nat
    requires y > 0
  {
    (x + y - 1) / y
  }

  /** CeilDiv is the least c with c * y >= x. */
  lemma CeilDivBounds(x: nat, y: nat)
    requires y > 0
    ensures CeilDiv(x, y) * y >= x
    ensures CeilDiv(x, y) == 0 || (CeilDiv(x, y) - 1) * y < x
  {
    var q, r := (x + y - 1) / y, (x + y - 1) % y;
    assert x + y - 1 == q * y + r && 0 <= r < y;
    assert (q - 1) * y == q * y - y;
  }
}
