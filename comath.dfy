/** The host (CPU) side of comath.h: the elementwise vector operators, the
    `sum` reductions, the strike-slip statistic and the alter-johnson
    transform. Elements are `int`, the int/long instantiations of the
    templates; the OpenMP parallel loops are modelled as the sequential loops
    they parallelise. */
module CoMath {
  import opened Arith

  /** The exceptions the operators throw: `std::invalid_argument` from the
      length checks, and `cl::Error` from the OpenCL bindings, which comath.h
      builds with exceptions enabled. */
  datatype Error = InvalidArgument(what: string) | ClError(code: string)

  datatype Result<T> = Ok(value: T) | Err(error: Error)

  const SizeMismatch := InvalidArgument("vectors must have same size")

  // ---------------------------------------------------------------------------
  // Elementwise operators

  /** `a + b`: a fresh vector of pairwise sums, or `invalid_argument` when the
      lengths differ. */
  method Add(a: seq<int>, b: seq<int>) returns (r: Result<seq<int>>)
    ensures r.Err? <==> |a| != |b|
    ensures r.Err? ==> r.error == SizeMismatch
    ensures r.Ok? ==> |r.value| == |a| && forall i :: 0 <= i < |a| ==> r.value[i] == a[i] + b[i]
  {
    if |a| != |b| {
      return Err(SizeMismatch);
    }
    var result := new int[|a|];
    for i := 0 to |a|
      invariant forall j :: 0 <= j < i ==> result[j] == a[j] + b[j]
    {
      result[i] := a[i] + b[i];
    }
    return Ok(result[..]);
  }

  /** `a * b` for two vectors: pairwise products, or `invalid_argument`. */
  method Mul(a: seq<int>, b: seq<int>) returns (r: Result<seq<int>>)
    ensures r.Err? <==> |a| != |b|
    ensures r.Err? ==> r.error == SizeMismatch
    ensures r.Ok? ==> |r.value| == |a| && forall i :: 0 <= i < |a| ==> r.value[i] == a[i] * b[i]
  {
    if |a| != |b| {
      return Err(SizeMismatch);
    }
    var result := new int[|a|];
    for i := 0 to |a|
      invariant forall j :: 0 <= j < i ==> result[j] == a[j] * b[j]
    {
      result[i] := a[i] * b[i];
    }
    return Ok(result[..]);
  }

  /** `a * b` for a vector and a scalar: no length check, every element scaled. */
  method MulScalar(a: seq<int>, b: int) returns (r: seq<int>)
    ensures |r| == |a|
    ensures forall i :: 0 <= i < |a| ==> r[i] == a[i] * b
  {
    var result := new int[|a|];
    for i := 0 to |a|
      invariant forall j :: 0 <= j < i ==> result[j] == a[j] * b
    {
      result[i] := a[i] * b;
    }
    return result[..];
  }

  /** `a / b` for two vectors: pairwise truncating quotients, or
      `invalid_argument`. A zero divisor is undefined behaviour for integer
      elements, so it is excluded whenever the division is reached. */
  method Div(a: seq<int>, b: seq<int>) returns (r: Result<seq<int>>)
    requires |a| == |b| ==> forall i :: 0 <= i < |b| ==> b[i] != 0
    ensures r.Err? <==> |a| != |b|
    ensures r.Err? ==> r.error == SizeMismatch
    ensures r.Ok? ==> |r.value| == |a| && forall i :: 0 <= i < |a| ==> r.value[i] == CDiv(a[i], b[i])
  {
    if |a| != |b| {
      return Err(SizeMismatch);
    }
    var result := new int[|a|];
    for i := 0 to |a|
      invariant forall j :: 0 <= j < i ==> result[j] == CDiv(a[j], b[j])
    {
      result[i] := CDiv(a[i], b[i]);
    }
    return Ok(result[..]);
  }

  /** `a / b` for a vector and a scalar: no length check. The divisor is only
      used when `a` is non-empty. */
  method DivScalar(a: seq<int>, b: int) returns (r: seq<int>)
    requires |a| > 0 ==> b != 0
    ensures |r| == |a|
    ensures forall i :: 0 <= i < |a| ==> r[i] == CDiv(a[i], b)
  {
    var result := new int[|a|];
    for i := 0 to |a|
      invariant forall j :: 0 <= j < i ==> result[j] == CDiv(a[j], b)
    {
      result[i] := CDiv(a[i], b);
    }
    return result[..];
  }

  /** Summing the result of `a + b` gives the sum of `a` plus the sum of `b`:
      the elementwise and reduction engines agree. */
  lemma {:induction false} SumOfPairwiseSums(a: seq<int>, b: seq<int>, r: seq<int>)
    requires |a| == |b| == |r|
    requires forall i :: 0 <= i < |a| ==> r[i] == a[i] + b[i]
    ensures Sum(r) == Sum(a) + Sum(b)
    decreases |a|
  {
    if |a| > 0 {
      var n := |a| - 1;
      SumOfPairwiseSums(a[..n], b[..n], r[..n]);
    }
  }

  // ---------------------------------------------------------------------------
  // Reductions

  /** `sum(a, first)`: `first` plus every element. */
  method SumFrom(a: seq<int>, first: int) returns (accum: int)
    ensures accum == first + Sum(a)
  {
    accum := first;
    for i := 0 to |a|
      invariant accum == first + Sum(a[..i])
    {
      SumPrefixStep(a, i);
      accum := accum + a[i];
    }
    assert a[..|a|] == a;
  }

  /** The sequence of `functor(x)` for every element `x`. */
  function Mapped(f: int -> int, s: seq<int>): seq<int>
  {
    seq(|s|, i requires 0 <= i < |s| => f(s[i]))
  }

  /** `sum(a, functor, first)` (both the functor and the function-pointer
      overloads): `first` plus `functor` of every element. */
  method SumMapped(a: seq<int>, f: int -> int, first: int) returns (accum: int)
    ensures accum == first + Sum(Mapped(f, a))
  {
    accum := first;
    ghost var m := Mapped(f, a);
    for i := 0 to |a|
      invariant accum == first + Sum(m[..i])
    {
      SumPrefixStep(m, i);
      accum := accum + f(a[i]);
    }
    assert m[..|a|] == m;
  }

  // ---------------------------------------------------------------------------
  // Strike-slip

  /** `|a[i] - a[i + dt]|` for every `i` in the valid window `[0, |a| - dt)`. */
  function AbsDiffs(a: seq<int>, dt: nat): seq<int>
    requires dt <= |a|
  {
    seq(|a| - dt, i requires 0 <= i < |a| - dt => Abs(a[i] - a[i + dt]))
  }

  /** The strike-slip statistic: the mean of the lagged absolute differences.
      With integer elements the source divides the non-negative total by the
      unsigned window length, which floors. */
  function MeanAbsSlip(a: seq<int>, dt: nat): int
    requires dt < |a|
  {
    Sum(AbsDiffs(a, dt)) / (|a| - dt)
  }

  /** `strike_slip(a, dt)`: one accumulation pass over the window, without
      materialising the differences. `dt >= |a|` is excluded: at `dt == |a|`
      the loop is empty and the total 0 is divided by a window length of 0,
      and a larger `dt` wraps the unsigned window length `a.size() - dt`. */
  method StrikeSlip(a: seq<int>, dt: nat) returns (m: int)
    requires dt < |a|
    ensures m == MeanAbsSlip(a, dt)
  {
    var accum := 0;
    ghost var d := AbsDiffs(a, dt);
    for i := 0 to |a| - dt
      invariant accum == Sum(d[..i])
    {
      SumPrefixStep(d, i);
      accum := accum + Abs(a[i] - a[i + dt]);
    }
    assert d[..|a| - dt] == d;
    m := accum / (|a| - dt);
  }

  /** The lagged differences total zero exactly when the sequence repeats
      with period `dt`; the statistic is never negative. */
  lemma StrikeSlipZeroIffPeriodic(a: seq<int>, dt: nat)
    requires dt < |a|
    ensures MeanAbsSlip(a, dt) >= 0
    ensures Sum(AbsDiffs(a, dt)) == 0 <==> forall i :: 0 <= i < |a| - dt ==> a[i] == a[i + dt]
    ensures (forall i :: 0 <= i < |a| - dt ==> a[i] == a[i + dt]) ==> MeanAbsSlip(a, dt) == 0
  {
    var d := AbsDiffs(a, dt);
    var k := |a| - dt;
    SumZeroIffAllZero(d);
    if Sum(d) == 0 {
      forall i | 0 <= i < k ensures a[i] == a[i + dt] {
        assert d[i] == 0;
      }
    }
    if forall i :: 0 <= i < k ==> a[i] == a[i + dt] {
      forall i | 0 <= i < k ensures d[i] == 0 {
      }
    }
    DivNonNeg(Sum(d), k);
  }

  /** The statistic never exceeds the largest lagged difference. */
  lemma StrikeSlipAtMost(a: seq<int>, dt: nat, bound: int)
    requires dt < |a|
    requires forall i :: 0 <= i < |a| - dt ==> Abs(a[i] - a[i + dt]) <= bound
    ensures 0 <= MeanAbsSlip(a, dt) <= bound
  {
    AbsDiffsAtMost(a, dt, bound);
    DivAtMost(Sum(AbsDiffs(a, dt)), |a| - dt, bound);
  }

  lemma AbsDiffsAtMost(a: seq<int>, dt: nat, bound: int)
    requires dt < |a|
    requires forall i :: 0 <= i < |a| - dt ==> Abs(a[i] - a[i + dt]) <= bound
    ensures Sum(AbsDiffs(a, dt)) <= (|a| - dt) * bound
    ensures 0 <= Sum(AbsDiffs(a, dt))
  {
    AbsDiffsNonNegative(a, dt);
    SumAtMost(AbsDiffs(a, dt), bound);
  }

  lemma AbsDiffsNonNegative(a: seq<int>, dt: nat)
    requires dt < |a|
    ensures 0 <= Sum(AbsDiffs(a, dt))
  {
    SumZeroIffAllZero(AbsDiffs(a, dt));
  }

  /** Adding a constant to every element, or negating every element, leaves
      the statistic unchanged. */
  lemma StrikeSlipShiftAndFlipInvariant(a: seq<int>, sign: int, c: int, dt: nat)
    requires sign == 1 || sign == -1
    requires dt < |a|
    ensures MeanAbsSlip(seq(|a|, i requires 0 <= i < |a| => sign * a[i] + c), dt) == MeanAbsSlip(a, dt)
  {
    var b := seq(|a|, i requires 0 <= i < |a| => sign * a[i] + c);
    forall i | 0 <= i < |a| - dt
      ensures AbsDiffs(b, dt)[i] == AbsDiffs(a, dt)[i]
    {
      assert b[i] - b[i + dt] == sign * (a[i] - a[i + dt]);
    }
    assert AbsDiffs(b, dt) == AbsDiffs(a, dt);
  }

  /** For a sequence alternating between two values, odd lags give the gap
      between them and even lags give zero. */
  lemma AlternatingStrikeSlip(a: seq<int>, x: int, y: int, dt: nat)
    requires forall i :: 0 <= i < |a| ==> a[i] == if i % 2 == 0 then x else y
    requires 0 < dt < |a|
    ensures MeanAbsSlip(a, dt) == if dt % 2 == 0 then 0 else Abs(x - y)
  {
    var d := AbsDiffs(a, dt);
    var k := |a| - dt;
    var gap := if dt % 2 == 0 then 0 else Abs(x - y);
    assert Sum(d) == gap * k by {
      forall i | 0 <= i < k
        ensures d[i] == gap
      {
        assert (i + dt) % 2 == (if (i % 2 == 0) == (dt % 2 == 0) then 0 else 1);
      }
      SumConstant(d, gap);
    }
    MulDivCancel(gap, k);
  }

  // ---------------------------------------------------------------------------
  // Alter-johnson

  /** `ceil(n * part) - 1`, the number of lags, with `part = num / den`. The
      source needs `n * part > 0` (otherwise the length is negative) and
      `part <= 1` (otherwise a lag reaches `n`); every lag it yields is then a
      valid strike-slip lag. */
  function LagCount(n: nat, num: nat, den: nat): (lags: nat)
    requires den > 0 && 0 < num <= den && n > 0
    ensures lags < n
  {
    CeilDivPartBounds(n, num, den);
    CeilDiv(n * num, den) - 1
  }

  lemma CeilDivPartBounds(n: nat, num: nat, den: nat)
    requires den > 0 && 0 < num <= den && n > 0
    ensures 1 <= CeilDiv(n * num, den) <= n
  {
    var c := CeilDiv(n * num, den);
    CeilDivBounds(n * num, den);
    assert n * num <= n * den;
    MulCancelLess(c - 1, n, den);
  }

  /** `LagCount + 1` is `ceil(n * part)`: the least integer at least `n * part`. */
  lemma LagCountIsCeilingMinusOne(n: nat, num: nat, den: nat)
    requires den > 0 && 0 < num <= den && n > 0
    ensures LagCount(n, num, den) * den < n * num <= (LagCount(n, num, den) + 1) * den
  {
    CeilDivBounds(n * num, den);
  }

  /** `alter_johnson(a, part)`: element `k - 1` is the strike-slip statistic
      at lag `k`, for every lag `k` from 1 to `ceil(n * part) - 1`. */
  method AlterJohnson(a: seq<int>, num: nat, den: nat) returns (r: seq<int>)
    requires den > 0 && 0 < num <= den && |a| > 0
    ensures |r| == LagCount(|a|, num, den)
    ensures forall k :: 0 <= k < |r| ==> r[k] == MeanAbsSlip(a, k + 1)
  {
    var lags := LagCount(|a|, num, den);
    var result := new int[lags];
    for i := 1 to lags + 1
      invariant forall k :: 0 <= k < i - 1 ==> result[k] == MeanAbsSlip(a, k + 1)
    {
      result[i - 1] := StrikeSlip(a, i);
    }
    return result[..];
  }

  /** The worked example: `[-1, 1, ..., -1, 1]` of length 10 with
      `part = 0.6` has 5 lags, and the transform is `[2, 0, 2, 0, 2]`. */
  lemma AlternatingExample()
    ensures LagCount(10, 3, 5) == 5
    ensures forall k :: 1 <= k <= 5 ==>
      MeanAbsSlip([-1, 1, -1, 1, -1, 1, -1, 1, -1, 1], k) == if k % 2 == 0 then 0 else 2
  {
    var a := [-1, 1, -1, 1, -1, 1, -1, 1, -1, 1];
    forall k | 1 <= k <= 5
      ensures MeanAbsSlip(a, k) == if k % 2 == 0 then 0 else 2
    {
      AlternatingStrikeSlip(a, -1, 1, k);
    }
  }
}
