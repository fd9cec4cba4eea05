# comath / vmath in Dafny

This project models the numeric core of a small command-line tool that reads a
column of numbers and transforms it. Two headers hold that core:

- `comath.h` has the elementwise vector operators `+`, `*` and `/`, in
  vector–vector and vector–scalar forms. It also has the `sum` reductions, the
  strike-slip statistic (the mean absolute difference between elements `dt`
  apart) and the alter-johnson transform (strike-slip at lags `1 .. ceil(n *
  part) - 1`). Its OpenCL back end (`CLProcessor`) provides a device `+`, a
  chunked tree reduction (`accum`) and a device alter-johnson.
- `vmath.h` has the `Calc<Op>` function objects for `Sum`, `Mul` and `Div`.
  They write into a result vector owned by the caller, which they grow but
  never shrink. It also has `vec::accumulate`.

Elements are `int`, the `int`/`long` instantiation of the templates. Integer
division truncates toward zero, as in C (`Arith.CDiv`). The `double` parameter
`part` is the rational `num / den`, so `ceil(n * part)` is an exact ceiling
quotient. The OpenMP loops are the sequential loops they parallelise.

The model is split into modules:

- `Arith`: sums, truncating division, ceiling division and their lemmas.
- `CoMath`: the host side of `comath.h`.
- `CoMathDevice`: `CLProcessor` over buffer contents. A buffer is a
  `seq<int>`. A launch over an NDRange is a loop over the work ids that runs
  the kernel body once per id.
- `VMath`: `vmath.h`. A vector that `Calc` changes in place is a `Vector`
  object, so `result` may be the same object as an operand.

## Model

| member | source | states |
|---|---|---|
| Arith.SumConcat | comath.h:42-44 | A sum splits over concatenation, which is what the chunked reduction relies on |
| Arith.SumPermutation | comath.h:212-214 | The total depends only on the multiset of elements, so the order a parallel reduction uses does not matter |
| Arith.CDivTruncates | comath.h:196 | The integer quotient truncates: the remainder is smaller than the divisor in magnitude and is zero or has the dividend's sign |
| Arith.CeilDivBounds | comath.h:84 | `ceil(x / y)` is the least `c` with `c * y >= x` |
| CoMath.Add | comath.h:140-150 | Throws `invalid_argument("vectors must have same size")` exactly when the lengths differ; otherwise returns a vector of length `|a|` with `r[i] == a[i] + b[i]` |
| CoMath.Mul | comath.h:169-178 | Same error case as `+`; otherwise `r[i] == a[i] * b[i]` at every index |
| CoMath.MulScalar | comath.h:180-187 | No length check; the result has length `|a|` and `r[i] == a[i] * b` |
| CoMath.Div | comath.h:189-198 | Same error case as `+`; otherwise `r[i]` is the truncated quotient `a[i] / b[i]` |
| CoMath.DivScalar | comath.h:200-207 | No length check; `r[i]` is the truncated quotient `a[i] / b` |
| CoMath.SumOfPairwiseSums | comath.h:140-150 | The total of `a + b` is the total of `a` plus the total of `b` |
| CoMath.SumFrom | comath.h:209-219 | `sum(a, first)` returns `first` plus the sum of all elements |
| CoMath.SumMapped | comath.h:221-243 | The functor and function-pointer `sum` overloads return `first` plus the sum of `functor(a[i])` |
| CoMath.StrikeSlip | comath.h:245-253 | For `dt < n`, returns the total of `|a[i] - a[i+dt]|` over `i < n - dt`, divided by `n - dt` |
| CoMath.StrikeSlipZeroIffPeriodic | comath.h:245-253 | The statistic is never negative; the lagged differences total zero iff the vector repeats with period `dt`, and then the statistic is 0 |
| CoMath.StrikeSlipAtMost | comath.h:245-253 | The statistic lies between 0 and any bound on the lagged absolute differences |
| CoMath.StrikeSlipShiftAndFlipInvariant | comath.h:245-253 | Adding a constant to every element, or negating every element, leaves the statistic unchanged |
| CoMath.AlternatingStrikeSlip | comath.h:245-253 | On a vector alternating between `x` and `y`, odd lags give `|x - y|` and even lags give 0 |
| CoMath.LagCount | comath.h:258 | The host's result length `ceil(n * part) - 1` is below `n`, so every lag it yields is a valid strike-slip lag |
| CoMath.CeilDivPartBounds | comath.h:258 | For `0 < part <= 1` and `n > 0`, `ceil(n * part)` lies in `1 .. n` |
| CoMath.LagCountIsCeilingMinusOne | comath.h:258 | `LagCount + 1` is the least integer at least `n * part` |
| CoMath.AlterJohnson | comath.h:255-264 | The result has length `ceil(n * part) - 1`, and element `k - 1` is the strike-slip statistic at lag `k` |
| CoMath.AlternatingExample | comath.h:255-264 | For `[-1, 1, ...]` of length 10 and `part = 0.6` there are 5 lags, with values `2, 0, 2, 0, 2` |
| CoMathDevice.EnqueueSum | comath.h:46-55 | A `sum` launch over `global` work items, each running the kernel body `SumWorkItem`, sets `r[i] = v1[i+off1] + v2[i+off2]` where `i < global` and both reads are below `s`; every other cell is unchanged |
| CoMathDevice.ProcessorSum | comath.h:67-76 | `CLProcessor::sum` throws `cl::Error` (`CL_INVALID_BUFFER_SIZE`) exactly when the vectors are empty, since it asks for 0-byte buffers; otherwise it returns a vector of length `|a|` with `r[i] == a[i] + b[i]` |
| CoMathDevice.DeviceAdd | comath.h:161-166 | The OpenCL `operator+` throws `invalid_argument` exactly when the lengths differ, as the host does, and `cl::Error` on two empty vectors, where the host returns an empty vector; on non-empty vectors of one length it returns the host's pointwise sums |
| CoMathDevice.AccumulateWorkItem | comath.h:36-45 | A work item whose chunk starts below `size` writes that chunk's sum, without reading at or past `size`, into `copy[index / pad]`; the others write nothing |
| CoMathDevice.ChunkStartsBelowSize | comath.h:42 | Work item `j` has a non-empty chunk exactly when `j < ceil(size / pad)` |
| CoMathDevice.EnqueueAccumulate | comath.h:31-45 | One pass sets `copy[j]` to the sum of `data[j*pad .. min(size, j*pad+pad))` for every `j < ceil(size/pad)` and leaves every other cell unchanged |
| CoMathDevice.PassPreservesSum | comath.h:37-44 | The chunk totals of one pass add up to the sum of the first `size` elements |
| CoMathDevice.ChunkTotals | comath.h:37-44 | The first `k` chunk totals add up to the sum of the first `min(size, k * pad)` elements |
| CoMathDevice.Accum | comath.h:78-101 | The ping-pong loop ends, since `size` strictly decreases while it is above 1, and returns the sum of the first `size` elements read from the live buffer; both buffers keep their lengths |
| CoMathDevice.ProcessorAlterJohnson | comath.h:103-121 | As written: for every `dt` in `1 .. target_len`, the cell `dt - 1` holds the undivided sum of `v[i+dt] - v[i]` |
| CoMathDevice.SignedDiffsTelescope | comath.h:105-118 | The device's value for lag `dt` telescopes to the sum of the last `dt` elements minus the sum of the first `dt` |
| CoMathDevice.AlterJohnsonOnDevice | comath.h:266-273 | The OpenCL `alter_johnson<double>` returns `ceil(n * part)` cells, one more than the host, holding the signed undivided sums |
| CoMathDevice.DeviceDisagreesWithHost | comath.h:103-121 | For `[0, 1, 0]` with `part = 0.6`, the host computes one lag with value 1, but the device computes two lags and reports 0 for lag 1 |
| CoMathDevice.DeviceStrikeSlip | comath.h:113-118 | A lag computed with the `sum` kernel, an absolute value and the tree reduction, then divided by the window length, equals the host strike-slip statistic |
| CoMathDevice.AbsoluteWindow | comath.h:116 | Making the copied-back window absolute turns the kernel output into the host's lagged absolute differences |
| CoMathDevice.AlterJohnsonOnDeviceCorrected | comath.h:103-121 | The corrected device transform has the host's length and, at every lag, the host's strike-slip value |
| VMath.Apply | vmath.h:8-27 | `Sum` gives `x + y`, `Mul` gives `x * y`, and `Div` gives the quotient truncated toward zero |
| VMath.Combined | vmath.h:55-60 | After a successful binary step, `result` has length `max(|result|, |a|)`, holds `op(a[i], b[i])` below `|a|`, and keeps its old cells past `|a|` |
| VMath.CombinedIdempotent | vmath.h:52-61 | Repeating the binary form with the same operands changes nothing further |
| VMath.CalcBinary | vmath.h:52-61 | Returns false and leaves `result` untouched iff the lengths differ; otherwise grows `result` to `|a|` if it is shorter, writes `op(a[i], b[i])` below `|a|` and keeps the rest, even when `result` is `a` or `b` |
| VMath.ChainRest | vmath.h:63-68 | The trailing steps never change the length of `result` |
| VMath.CalcChain | vmath.h:63-68 | The variadic form does the binary step on `a, b` and then `result := op(result, v)` for each trailing `v`, stopping with false at the first length mismatch; a zero divisor is excluded only in steps that run |
| VMath.ReachedDivisibleAll | vmath.h:67 | When every trailing vector has the chain's length, every one of them is reached, so each must be a valid divisor |
| VMath.ChainStopsAtMismatch | vmath.h:67 | Dividing `[4]` by `[2]` and then by `[1, 1]` returns false with `result = [2]`, so a later `[0]` is never used as a divisor |
| VMath.ChainRestSucceedsIff | vmath.h:63-68 | The trailing steps succeed iff every trailing vector has the length of `result` |
| VMath.ChainSucceedsIff | vmath.h:63-68 | The variadic form returns true iff `|a| == |b|` and every trailing vector has length `max(|result|, |a|)` |
| VMath.LongerResultRejected | vmath.h:63-68 | A result vector longer than operands of equal length makes the variadic form return false |
| VMath.ChainRestColumns | vmath.h:63-68 | After successful trailing steps, cell `i` is `op` folded left to right down column `i` |
| VMath.ChainColumns | vmath.h:63-68 | On success, cell `i < |a|` is the left fold `op(op(op(a[i], b[i]), c[i]), ...)`; a cell past `|a|` folds its old value with the trailing vectors |
| VMath.CalcScalar | vmath.h:70-76 | Sets `result[i] = op(a[i], b)` for `i < |a|` with no resize and keeps the other cells, also when `result` is `a` |
| VMath.Accumulate | vmath.h:83-90 | `accumulate(v, init)` returns `init` plus the sum of all elements |

## Left out

- The OpenCL runtime is not modelled. This covers `cl::Buffer`, `cl::copy`, `cl::Program`, `make_kernel`, `EnqueueArgs` and the static per-type program and functor caches. Only buffer contents are modelled, as sequences.
- `command_builder` is not modelled. It builds the kernel source as a string; the model gives that kernel code's meaning instead.
- OpenMP parallelism is read as a sequential loop. With integer elements the order of a reduction does not change its value (`Arith.SumPermutation`).
- Floating point is out of scope. This covers `fabs`, `double` division, the `double` instantiations and the `double` readback buffer in `accum`. Elements are `int`, and `part` is a rational.
- Integer overflow is not modelled. Elements are unbounded integers, so sums and products never wrap.
- The `std::accumulate` fallback of the functor `sum` overloads (comath.h:228, 240) is not modelled. It passes a unary functor where a binary one is required; the model follows the OpenMP branch.
- `main.cpp` is not part of this model. It holds argument parsing, reading the input column, printing and timing.
- CoMath.Div: a zero divisor is a precondition, because integer division by zero is undefined behaviour in C++. The same holds for CoMath.DivScalar, VMath.Apply, VMath.CalcBinary and VMath.CalcScalar. VMath.CalcChain excludes a zero divisor only in the steps the chain reaches, since it stops at the first length mismatch.
- CoMath.StrikeSlip: `dt < n` is a precondition. At `dt == n` the loop is empty and comath.h:252 divides 0 by a window length of 0; for a larger `dt` the unsigned `a.size() - dt` wraps.
- CoMath.AlterJohnson: requires `n > 0` and `0 < part <= 1`; other values give a negative length or a lag of at least `n`.
- CoMathDevice.AlterJohnsonOnDevice: requires `ceil(n * part) < n`. A lag equal to `n` launches the `sum` kernel over an NDRange of size zero. What happens then depends on the OpenCL runtime: an OpenCL 1.x runtime rejects the launch and the bindings throw `cl::Error`, while a runtime that accepts it reads back a stale cell. This case is reached for `n <= 2` at `part = 0.6`, and for every `n` at `part = 1`.
- CoMathDevice.ProcessorAlterJohnson: the host copy of `buffer_r` into `sslip` is not kept, because nothing reads it.
- CoMathDevice.DeviceAdd: on two empty vectors only the first failure, the 0-byte buffer, is modelled; the launch over an NDRange of size 0 that would follow is never reached. The same holds for CoMathDevice.ProcessorSum.
- CoMathDevice.Accum: the buffers `buffer_r` and `buffer_cr` are created `CL_MEM_WRITE_ONLY` (comath.h:110-111), yet the `accumulate` kernel reads them as `data` on alternate passes. The OpenCL specification leaves such reads undefined; the model has them return the last contents written, and both `Accum`'s result and the device values in the Findings row rest on that.
- CoMathDevice.Accum: the chunk size is fixed at 2, as in the source. Device buffers created without initial contents start as zeros; no result depends on those cells. The buffer contents it leaves behind are not specified, only their lengths, because every caller overwrites the window before the next reduction reads it.
- VMath.CalcChain: requires that no trailing vector is `result` itself. A trailing `result` is read after earlier steps have changed it, and the model does not cover that case.
- VMath.CalcScalar: the scalar `b` is taken by value. In the source it is a `const T&`, which may refer to a cell of `result`, as in `vec::div(v, v, v[0])`. Read sequentially, that cell changes part-way through the loop and later cells use the new value; under OpenMP it is a data race. The model divides every cell by the value `b` had at the call. The call in main.cpp:97 passes a copy, so it is not affected.

## Findings

| source | as written | input that shows it | evidently intended | confidence | as-written member | corrected member |
|---|---|---|---|---|---|---|
| comath.h:103-121 | The device alter-johnson runs lags `1 .. ceil(n * part)`. It adds `-v` to `v` shifted by `dt` with no absolute value and never divides by `n - dt`, so each cell is a signed total that telescopes to the difference of the end sums | `[0, 1, 0]` with `part = 0.6`: the host returns `[1]`, the device returns `[0, 0]`. Any input with `ceil(n * part) == n` (`n <= 2` at `part = 0.6`, or `part = 1`) also reaches a `sum` launch over an NDRange of size zero, whose outcome depends on the OpenCL runtime; the model excludes those inputs | The host result: lags `1 .. ceil(n * part) - 1`, each the mean absolute lagged difference | high; not executed | CoMathDevice.DeviceDisagreesWithHost | CoMathDevice.AlterJohnsonOnDeviceCorrected |
