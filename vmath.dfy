/** vmath.h: the `DefaultOperators`, the `Calc<Op>` forms that write into a
    caller-owned result vector, and `vec::accumulate`. A `std::vector<int>`
    that `Calc` changes in place is a `Vector` object; the same object may be
    passed both as `result` and as an operand. */
module VMath {
  import Arith

  /** `DefaultOperators::Sum`, `Mul` and `Div`. */
  datatype Op = Sum | Mul | Div

  /** `Calc<Op>::operator()(a, b)` on two values: forwards to the operator.
      Division is C's truncating integer division; a zero divisor is
      undefined behaviour, so it is excluded. */
  function Apply(op: Op, x: int, y: int): (r: int)
    requires op.Div? ==> y != 0
    ensures op.Sum? ==> r == x + y
    ensures op.Mul? ==> r == x * y
    ensures op.Div? ==> Arith.Abs(x - r * y) < Arith.Abs(y)
    ensures op.Div? ==> x - r * y == 0 || (x - r * y > 0) == (x > 0)
  {
    match op
    case Sum => x + y
    case Mul => x * y
    case Div => Arith.CDivTruncates(x, y); Arith.CDiv(x, y)
  }

  /** A `std::vector<int>` owned by the caller. */
  class Vector {
    var elems: seq<int>

    constructor (s: seq<int>)
      ensures elems == s
    {
      elems := s;
    }
  }

  /** Every element may serve as a right operand of `op`. */
  predicate Divisible(op: Op, b: seq<int>)
  {
    op.Div? ==> forall i :: 0 <= i < |b| ==> b[i] != 0
  }

  /** Every trailing vector that a chain of steps on a result of length
      `len` reaches with matching length may serve as a right operand of
      `op`. The chain stops at the first vector whose length differs, so
      vectors from there on are never divided by. */
  predicate ReachedDivisible(op: Op, len: nat, rest: seq<seq<int>>)
    decreases |rest|
  {
    |rest| == 0 || (|rest[0]| == len ==> Divisible(op, rest[0]) && ReachedDivisible(op, len, rest[1..]))
  }

  /** When every trailing vector has the length the chain runs at, every
      one of them is reached. */
  lemma {:induction false} ReachedDivisibleAll(op: Op, len: nat, rest: seq<seq<int>>)
    requires ReachedDivisible(op, len, rest)
    requires forall k :: 0 <= k < |rest| ==> |rest[k]| == len
    ensures forall k :: 0 <= k < |rest| ==> Divisible(op, rest[k])
    decreases |rest|
  {
    if |rest| > 0 {
      ReachedDivisibleAll(op, len, rest[1..]);
      assert forall k :: 1 <= k < |rest| ==> rest[k] == rest[1..][k - 1];
    }
  }

  function Pointwise(op: Op, a: seq<int>, b: seq<int>): seq<int>
    requires |a| == |b| && Divisible(op, b)
  {
    seq(|a|, i requires 0 <= i < |a| => Apply(op, a[i], b[i]))
  }

  /** The contents of `result` after a successful binary `Calc`: the first
      `|a|` cells hold `op(a[i], b[i])`, the vector has grown to `|a|` if it
      was shorter, and the cells past `|a|` keep their values. */
  function Combined(op: Op, result: seq<int>, a: seq<int>, b: seq<int>): (r: seq<int>)
    requires |a| == |b| && Divisible(op, b)
    ensures |r| == Arith.Max(|result|, |a|)
    ensures forall i :: 0 <= i < |a| ==> r[i] == Apply(op, a[i], b[i])
    ensures forall i :: |a| <= i < |result| ==> r[i] == result[i]
  {
    Pointwise(op, a, b) + (if |a| < |result| then result[|a|..] else [])
  }

  /** Running the binary form twice with the same operands changes nothing
      the first run did not. */
  lemma CombinedIdempotent(op: Op, result: seq<int>, a: seq<int>, b: seq<int>)
    requires |a| == |b| && Divisible(op, b)
    ensures Combined(op, Combined(op, result, a, b), a, b) == Combined(op, result, a, b)
  {
    var once := Combined(op, result, a, b);
    var twice := Combined(op, once, a, b);
    assert |twice| == |once|;
    forall i | 0 <= i < |once|
      ensures twice[i] == once[i]
    {
    }
  }

  /** The binary `Calc` form. On a length mismatch it returns false and
      leaves `result` as it was; otherwise it grows `result` to `a.size()` if
      it is shorter (new cells are value-initialised, then overwritten),
      writes `op(a[i], b[i])` into the first `a.size()` cells and returns
      true. `result` may be `a` or `b` itself: each cell is read before it is
      written and no other cell is read. */
  method CalcBinary(op: Op, result: Vector, a: Vector, b: Vector) returns (ok: bool)
    requires |a.elems| == |b.elems| ==> Divisible(op, b.elems)
    modifies result
    ensures ok == (|old(a.elems)| == |old(b.elems)|)
    ensures !ok ==> result.elems == old(result.elems)
    ensures ok ==> result.elems == Combined(op, old(result.elems), old(a.elems), old(b.elems))
  {
    if |a.elems| != |b.elems| {
      return false;
    }
    ghost var oldA, oldB := a.elems, b.elems;
    ghost var wanted := Combined(op, result.elems, a.elems, b.elems);
    if |result.elems| < |a.elems| {
      result.elems := result.elems + seq(|a.elems| - |result.elems|, _ => 0);
    }
    ghost var grown := result.elems;
    assert a == result ==> grown == oldA;
    assert b == result ==> grown == oldB;
    var i := 0;
    while i < |a.elems|
      invariant |a.elems| == |oldA| && |b.elems| == |oldB| && |result.elems| == |grown|
      invariant 0 <= i <= |oldA|
      invariant forall j :: 0 <= j < i ==> result.elems[j] == Apply(op, oldA[j], oldB[j])
      invariant forall j :: i <= j < |grown| ==> result.elems[j] == grown[j]
      invariant forall j :: i <= j < |oldA| ==> a.elems[j] == oldA[j] && b.elems[j] == oldB[j]
    {
      result.elems := result.elems[i := Apply(op, a.elems[i], b.elems[i])];
      i := i + 1;
    }
    assert result.elems == wanted;
    return true;
  }

  /** The contents of a sequence of vectors. */
  function Elems(vs: seq<Vector>): (es: seq<seq<int>>)
    reads vs
    ensures |es| == |vs| && forall k :: 0 <= k < |vs| ==> es[k] == vs[k].elems
  {
    seq(|vs|, k requires 0 <= k < |vs| reads vs => vs[k].elems)
  }

  /** The trailing steps of the variadic form: `result := op(result, v)` for
      each `v` in turn, stopping with false at the first `v` whose length
      differs from `result`'s. */
  function ChainRest(op: Op, result: seq<int>, rest: seq<seq<int>>): (r: (bool, seq<int>))
    requires ReachedDivisible(op, |result|, rest)
    ensures |r.1| == |result|
    decreases |rest|
  {
    if |rest| == 0 then (true, result)
    else if |result| != |rest[0]| then (false, result)
    else ChainRest(op, Combined(op, result, result, rest[0]), rest[1..])
  }

  /** The variadic form `(result, a, b, rest...)`: the binary form on `a`
      and `b`, then the trailing steps. */
  function Chain(op: Op, result: seq<int>, a: seq<int>, b: seq<int>, rest: seq<seq<int>>): (bool, seq<int>)
    requires |a| == |b| ==> Divisible(op, b) && ReachedDivisible(op, Arith.Max(|result|, |a|), rest)
  {
    if |a| != |b| then (false, result) else ChainRest(op, Combined(op, result, a, b), rest)
  }

  /** The variadic `Calc` form: `operator()(result, a, b) &&
      operator()(result, result, rest...)`, the binary form once the pack
      has one vector left. The trailing vectors must not be `result` itself.
      A zero divisor is excluded only in the steps the chain reaches: the
      `&&` stops at the first length mismatch. */
  method CalcChain(op: Op, result: Vector, a: Vector, b: Vector, rest: seq<Vector>) returns (ok: bool)
    requires |rest| >= 1
    requires forall k :: 0 <= k < |rest| ==> rest[k] != result
    requires |a.elems| == |b.elems| ==>
      Divisible(op, b.elems) && ReachedDivisible(op, Arith.Max(|result.elems|, |a.elems|), Elems(rest))
    modifies result
    ensures (ok, result.elems) == Chain(op, old(result.elems), old(a.elems), old(b.elems), Elems(rest))
    decreases |rest|
  {
    ghost var es := Elems(rest);
    ok := CalcBinary(op, result, a, b);
    if !ok {
      return;
    }
    ghost var first := result.elems;
    assert Elems(rest) == es;
    assert es[1..] == Elems(rest[1..]);
    assert Chain(op, old(result.elems), old(a.elems), old(b.elems), es) == ChainRest(op, first, es);
    if |rest| == 1 {
      ok := CalcBinary(op, result, result, rest[0]);
      if ok {
        assert es[1..] == [];
        assert ChainRest(op, first, es) == ChainRest(op, result.elems, []);
      }
    } else {
      ok := CalcChain(op, result, result, rest[0], rest[1..]);
    }
    assert (ok, result.elems) == ChainRest(op, first, es);
    assert Elems(rest) == es;
  }

  /** `op` folded left to right down column `i` of the trailing vectors,
      starting from `x`. */
  function FoldColumn(op: Op, x: int, rest: seq<seq<int>>, i: nat): int
    requires forall k :: 0 <= k < |rest| ==> i < |rest[k]| && Divisible(op, rest[k])
    decreases |rest|
  {
    if |rest| == 0 then x
    else
      assert Divisible(op, rest[0]);
      FoldColumn(op, Apply(op, x, rest[0][i]), rest[1..], i)
  }

  /** The trailing steps succeed exactly when every trailing vector has the
      length of `result`, and they never change that length. */
  lemma {:induction false} ChainRestSucceedsIff(op: Op, result: seq<int>, rest: seq<seq<int>>)
    requires ReachedDivisible(op, |result|, rest)
    ensures ChainRest(op, result, rest).0 <==> forall k :: 0 <= k < |rest| ==> |rest[k]| == |result|
    decreases |rest|
  {
    if |rest| > 0 && |result| == |rest[0]| {
      ChainRestSucceedsIff(op, Combined(op, result, result, rest[0]), rest[1..]);
      assert forall k :: 1 <= k < |rest| ==> rest[k] == rest[1..][k - 1];
    }
  }

  /** The variadic form succeeds exactly when `a` and `b` have the same
      length and every trailing vector has the length `result` has after the
      first step: the larger of its old length and `a`'s. */
  lemma ChainSucceedsIff(op: Op, result: seq<int>, a: seq<int>, b: seq<int>, rest: seq<seq<int>>)
    requires |a| == |b| ==> Divisible(op, b) && ReachedDivisible(op, Arith.Max(|result|, |a|), rest)
    ensures Chain(op, result, a, b, rest).0 <==>
      |a| == |b| && forall k :: 0 <= k < |rest| ==> |rest[k]| == Arith.Max(|result|, |a|)
  {
    if |a| == |b| {
      ChainRestSucceedsIff(op, Combined(op, result, a, b), rest);
    }
  }

  /** A result vector longer than the operands makes the variadic form fail
      even when all operands have one length: after the first step `result`
      keeps its larger length and no longer matches the next operand. */
  lemma LongerResultRejected(op: Op, result: seq<int>, a: seq<int>, b: seq<int>, rest: seq<seq<int>>)
    requires |a| == |b| && Divisible(op, b) && ReachedDivisible(op, Arith.Max(|result|, |a|), rest)
    requires |rest| >= 1 && |result| > |a|
    requires forall k :: 0 <= k < |rest| ==> |rest[k]| == |a|
    ensures !Chain(op, result, a, b, rest).0
  {
    ChainSucceedsIff(op, result, a, b, rest);
    assert |rest[0]| != Arith.Max(|result|, |a|);
  }

  /** The chain stops at the first length mismatch: dividing `[4]` by `[2]`
      and then by `[1, 1]` fails, so the trailing `[0]` is never a divisor
      and the call is well defined. */
  lemma ChainStopsAtMismatch()
    ensures Chain(Div, [0], [4], [2], [[1, 1], [0]]) == (false, [2])
  {
    assert Combined(Div, [0], [4], [2]) == [2] by {
      assert Apply(Div, 4, 2) == 2;
    }
  }

  /** After successful trailing steps, cell `i` is `op` folded left to right
      down column `i`, starting from the cell's value before them. */
  lemma {:induction false} ChainRestColumns(op: Op, result: seq<int>, rest: seq<seq<int>>, i: nat)
    requires ReachedDivisible(op, |result|, rest)
    requires forall k :: 0 <= k < |rest| ==> |rest[k]| == |result|
    requires i < |result|
    ensures forall k :: 0 <= k < |rest| ==> Divisible(op, rest[k])
    ensures ChainRest(op, result, rest).0
    ensures ChainRest(op, result, rest).1[i] == FoldColumn(op, result[i], rest, i)
    decreases |rest|
  {
    ChainRestSucceedsIff(op, result, rest);
    ReachedDivisibleAll(op, |result|, rest);
    if |rest| > 0 {
      var next := Combined(op, result, result, rest[0]);
      assert forall k :: 0 <= k < |rest| - 1 ==> rest[1..][k] == rest[k + 1];
      ChainRestColumns(op, next, rest[1..], i);
    }
  }

  /** On success the variadic form is the left fold `op(op(op(a, b), c), ...)`
      in every cell below `|a|`; cells past `|a|` fold the old `result` cell
      with the trailing vectors instead. */
  lemma ChainColumns(op: Op, result: seq<int>, a: seq<int>, b: seq<int>, rest: seq<seq<int>>, i: nat)
    requires |a| == |b| && Divisible(op, b) && ReachedDivisible(op, Arith.Max(|result|, |a|), rest)
    requires Chain(op, result, a, b, rest).0
    requires i < |Chain(op, result, a, b, rest).1|
    ensures forall k :: 0 <= k < |rest| ==> i < |rest[k]| && Divisible(op, rest[k])
    ensures i < |a| ==> Chain(op, result, a, b, rest).1[i] == FoldColumn(op, Apply(op, a[i], b[i]), rest, i)
    ensures |a| <= i ==> Chain(op, result, a, b, rest).1[i] == FoldColumn(op, result[i], rest, i)
  {
    var first := Combined(op, result, a, b);
    ChainRestSucceedsIff(op, first, rest);
    ChainRestColumns(op, first, rest, i);
  }

  /** The scalar `Calc` form: `result[i] = op(a[i], b)` for every `i` below
      `a.size()`, with no resize, so `result` must be at least as long as
      `a`. `result` may be `a` itself, as in dividing a vector in place by
      its maximum. */
  method CalcScalar(op: Op, result: Vector, a: Vector, b: int)
    requires |a.elems| <= |result.elems|
    requires op.Div? && |a.elems| > 0 ==> b != 0
    modifies result
    ensures |result.elems| == |old(result.elems)|
    ensures forall i :: 0 <= i < |old(a.elems)| ==> result.elems[i] == Apply(op, old(a.elems)[i], b)
    ensures forall i :: |old(a.elems)| <= i < |result.elems| ==> result.elems[i] == old(result.elems)[i]
  {
    ghost var oldA, oldR := a.elems, result.elems;
    var i := 0;
    while i < |a.elems|
      invariant |a.elems| == |oldA| && |result.elems| == |oldR|
      invariant 0 <= i <= |oldA|
      invariant forall j :: 0 <= j < i ==> result.elems[j] == Apply(op, oldA[j], b)
      invariant forall j :: i <= j < |oldR| ==> result.elems[j] == oldR[j]
      invariant forall j :: i <= j < |oldA| ==> a.elems[j] == oldA[j]
    {
      result.elems := result.elems[i := Apply(op, a.elems[i], b)];
      i := i + 1;
    }
  }

  /** `vec::accumulate(v, init)`: `init` plus every element. */
  method Accumulate(v: seq<int>, init: int) returns (res: int)
    ensures res == init + Arith.Sum(v)
  {
    res := init;
    for i := 0 to |v|
      invariant res == init + Arith.Sum(v[..i])
    {
      Arith.SumPrefixStep(v, i);
      res := res + v[i];
    }
    assert v[..|v|] == v;
  }
}
