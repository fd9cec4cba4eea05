/** The OpenCL side of comath.h (`CLProcessor`), modelled on buffer contents.
    A device buffer is a `seq<int>`; a kernel launch over an NDRange of `g`
    work items is a loop running the kernel body for work ids `0 .. g - 1`
    (the work items write disjoint cells, so any order gives the same buffer);
    `cl::copy` is plain assignment. */
module CoMathDevice {
  import opened Arith
  import CoMath

  /** The chunk size `CLProcessor::accum` uses for every reduction pass. */
  const Padding: nat := 2

  // ---------------------------------------------------------------------------
  // The `sum` kernel

  /** One work item of `sum(s, offsetV1, offsetV2, v1, v2, r)`: cell `index`
      of `r` becomes `v1[index + offsetV1] + v2[index + offsetV2]` when both
      reads and the write are below `s`; otherwise nothing happens. */
  function SumWorkItem(index: nat, s: nat, off1: nat, off2: nat, v1: seq<int>, v2: seq<int>, r: seq<int>): seq<int>
    requires s <= |v1| && s <= |v2| && s <= |r|
  {
    if index + off1 < s && index + off2 < s && index < s then
      r[index := v1[index + off1] + v2[index + off2]]
    else
      r
  }

  /** A launch of the `sum` kernel over `global` work items. */
  method EnqueueSum(global: nat, s: nat, off1: nat, off2: nat, v1: seq<int>, v2: seq<int>, r: seq<int>)
    returns (out: seq<int>)
    requires s <= |v1| && s <= |v2| && s <= |r|
    ensures |out| == |r|
    ensures forall i :: 0 <= i < |r| ==>
      out[i] == if i < global && i + off1 < s && i + off2 < s then v1[i + off1] + v2[i + off2] else r[i]
  {
    out := r;
    for id := 0 to global
      invariant |out| == |r|
      invariant forall i :: 0 <= i < |r| ==>
        out[i] == if i < id && i + off1 < s && i + off2 < s then v1[i + off1] + v2[i + off2] else r[i]
    {
      out := SumWorkItem(id, s, off1, off2, v1, v2, out);
    }
  }

  /** What `clCreateBuffer` reports for a buffer of 0 bytes. */
  const InvalidBufferSize := CoMath.ClError("CL_INVALID_BUFFER_SIZE")

  /** `CLProcessor::sum(a, b)`: upload both vectors, run `sum` over `a.size()`
      work items with both offsets 0, read the result back. Its callers check
      the lengths first. Uploading an empty vector asks for a buffer of 0
      bytes, which OpenCL refuses, so the bindings throw. */
  method ProcessorSum(a: seq<int>, b: seq<int>) returns (r: CoMath.Result<seq<int>>)
    requires |a| == |b|
    ensures r.Err? <==> |a| == 0
    ensures r.Err? ==> r.error == InvalidBufferSize
    ensures r.Ok? ==> |r.value| == |a| && forall i :: 0 <= i < |a| ==> r.value[i] == a[i] + b[i]
  {
    if |a| == 0 {
      return CoMath.Err(InvalidBufferSize);
    }
    var bufferR := seq(|a|, _ => 0);
    bufferR := EnqueueSum(|a|, |a|, 0, 0, a, b, bufferR);
    return CoMath.Ok(bufferR);
  }

  /** The OpenCL overloads of `operator+`: the same length check and
      exception as the host operator, then `CLProcessor::sum`. On non-empty
      vectors of one length the result is the host operator's; on two empty
      vectors the host returns an empty vector, but the device throws. */
  method DeviceAdd(a: seq<int>, b: seq<int>) returns (r: CoMath.Result<seq<int>>)
    ensures r.Err? <==> |a| != |b| || |a| == 0
    ensures |a| != |b| ==> r == CoMath.Err(CoMath.SizeMismatch)
    ensures |a| == |b| == 0 ==> r == CoMath.Err(InvalidBufferSize)
    ensures r.Ok? ==> |r.value| == |a| && forall i :: 0 <= i < |a| ==> r.value[i] == a[i] + b[i]
  {
    if |a| != |b| {
      return CoMath.Err(CoMath.SizeMismatch);
    }
    r := ProcessorSum(a, b);
  }

  // ---------------------------------------------------------------------------
  // The `accumulate` kernel: one pass of the chunked tree reduction

  /** The chunk that work item `j` adds up: `data[j*pad .. min(size, j*pad + pad))`,
      which never reaches past `size`. */
  function Chunk(data: seq<int>, size: nat, pad: nat, j: nat): seq<int>
    requires pad > 0 && size <= |data| && j * pad < size
  {
    data[j * pad .. Min(size, j * pad + pad)]
  }

  /** One work item of `accumulate(size, pad, data, copy)`: when its chunk
      starts below `size`, it adds the chunk up and stores the total at
      `copy[index / pad]`, that is at `copy[gid]`. */
  method AccumulateWorkItem(gid: nat, size: nat, pad: nat, data: seq<int>, copy: seq<int>)
    returns (out: seq<int>)
    requires pad > 0 && size <= |data|
    requires gid * pad < size ==> gid < |copy|
    ensures gid * pad < size ==> out == copy[gid := Sum(Chunk(data, size, pad, gid))]
    ensures gid * pad >= size ==> out == copy
  {
    var index := gid * pad;
    var limit := if size < index + pad then size else index + pad;
    var accum := 0;
    out := copy;
    if index < size {
      var i := index;
      while i < limit
        invariant index <= i <= limit
        invariant accum == Sum(data[index..i])
      {
        assert data[index..i + 1] == data[index..i] + [data[i]];
        SumConcat(data[index..i], [data[i]]);
        accum := accum + data[i];
        i := i + 1;
      }
      MulDivCancel(gid, pad);
      out := copy[index / pad := accum];
    }
  }

  /** Work item `j` of a pass over `size` elements has a non-empty chunk
      exactly when `j < ceil(size / pad)`. */
  lemma ChunkStartsBelowSize(size: nat, pad: nat, j: nat)
    requires pad > 0
    ensures j < CeilDiv(size, pad) <==> j * pad < size
  {
    var c := CeilDiv(size, pad);
    CeilDivBounds(size, pad);
    if j < c {
      assert j * pad <= (c - 1) * pad by {
        MulMonotone(j, c - 1, pad);
      }
    } else {
      MulMonotone(c, j, pad);
    }
  }

  /** A launch of `accumulate` over `ceil(size / pad)` work items: cell `j` of
      `copy` receives the sum of chunk `j` for every `j < ceil(size / pad)`,
      and every other cell keeps its value. */
  method EnqueueAccumulate(size: nat, pad: nat, data: seq<int>, copy: seq<int>) returns (out: seq<int>)
    requires pad > 0 && size <= |data| && CeilDiv(size, pad) <= |copy|
    ensures |out| == |copy|
    ensures forall j :: 0 <= j < CeilDiv(size, pad) ==>
      j * pad < size && out[j] == Sum(Chunk(data, size, pad, j))
    ensures forall j :: CeilDiv(size, pad) <= j < |copy| ==> out[j] == copy[j]
  {
    var global := CeilDiv(size, pad);
    out := copy;
    for gid := 0 to global
      invariant |out| == |copy|
      invariant forall j :: 0 <= j < gid ==> j * pad < size && out[j] == Sum(Chunk(data, size, pad, j))
      invariant forall j :: gid <= j < |copy| ==> out[j] == copy[j]
    {
      ChunkStartsBelowSize(size, pad, gid);
      out := AccumulateWorkItem(gid, size, pad, data, out);
    }
  }

  /** The chunk totals of one pass add up to the total of the first `size`
      elements, so a pass loses nothing. */
  lemma PassPreservesSum(size: nat, pad: nat, data: seq<int>, out: seq<int>)
    requires pad > 0 && size <= |data| && CeilDiv(size, pad) <= |out|
    requires forall j :: 0 <= j < CeilDiv(size, pad) ==>
      j * pad < size && out[j] == Sum(Chunk(data, size, pad, j))
    ensures Sum(out[..CeilDiv(size, pad)]) == Sum(data[..size])
  {
    var c := CeilDiv(size, pad);
    ChunkTotals(size, pad, data, out, c);
    CeilDivBounds(size, pad);
    assert Min(size, c * pad) == size;
  }

  lemma {:induction false} ChunkTotals(size: nat, pad: nat, data: seq<int>, out: seq<int>, k: nat)
    requires pad > 0 && size <= |data| && k <= CeilDiv(size, pad) <= |out|
    requires forall j :: 0 <= j < CeilDiv(size, pad) ==>
      j * pad < size && out[j] == Sum(Chunk(data, size, pad, j))
    ensures Sum(out[..k]) == Sum(data[..Min(size, k * pad)])
    decreases k
  {
    if k > 0 {
      var j := k - 1;
      ChunkTotals(size, pad, data, out, j);
      SumPrefixStep(out, j);
      ChunkAppends(size, pad, data, j);
    }
  }

  /** Appending chunk `j` to the elements before it gives the elements
      before chunk `j + 1`. */
  lemma ChunkAppends(size: nat, pad: nat, data: seq<int>, j: nat)
    requires pad > 0 && size <= |data| && j * pad < size
    ensures Sum(data[..Min(size, (j + 1) * pad)]) == Sum(data[..Min(size, j * pad)]) + Sum(Chunk(data, size, pad, j))
  {
    var lo := j * pad;
    var hi := Min(size, lo + pad);
    assert (j + 1) * pad == lo + pad;
    assert data[..hi] == data[..lo] + data[lo..hi];
    SumConcat(data[..lo], data[lo..hi]);
  }

  // ---------------------------------------------------------------------------
  // The ping-pong reduction loop

  /** `CLProcessor::accum(size, data, copy)`: passes of `accumulate` with
      chunk size 2, alternately from `data` into `copy` and back, each pass
      shrinking `size` to `ceil(size / 2)`, until one element is left; that
      element is read back from the buffer the last pass wrote. The loop
      ends because `ceil(size / 2) < size` while `size > 1`, and the value
      returned is the sum of the first `size` elements of `data`. Both
      buffers are returned too, as the device holds them afterwards; only
      their lengths are promised, and their contents are left unspecified on
      purpose, because every caller overwrites the window before the next
      reduction reads it. */
  method Accum(size: nat, data: seq<int>, copy: seq<int>)
    returns (result: int, dataOut: seq<int>, copyOut: seq<int>)
    requires 1 <= size <= |data| && CeilDiv(size, Padding) <= |copy|
    ensures result == Sum(data[..size])
    ensures |dataOut| == |data| && |copyOut| == |copy|
  {
    var padding := Padding;
    var flip := false;
    var live := size;
    dataOut, copyOut := data, copy;
    while live > 1
      invariant 1 <= live
      invariant |dataOut| == |data| && |copyOut| == |copy|
      invariant live <= (if flip then |copyOut| else |dataOut|)
      invariant CeilDiv(live, padding) <= (if flip then |dataOut| else |copyOut|)
      invariant Sum((if flip then copyOut else dataOut)[..live]) == Sum(data[..size])
      decreases live
    {
      var rSize := CeilDiv(live, padding);
      if !flip {
        copyOut := EnqueueAccumulate(live, padding, dataOut, copyOut);
        PassPreservesSum(live, padding, dataOut, copyOut);
      } else {
        dataOut := EnqueueAccumulate(live, padding, copyOut, dataOut);
        PassPreservesSum(live, padding, copyOut, dataOut);
      }
      flip := !flip;
      live := rSize;
    }
    var final := if flip then copyOut else dataOut;
    assert final[..1] == [final[0]];
    result := final[0];
  }

  // ---------------------------------------------------------------------------
  // alter_johnson on the device

  /** What the device writes for lag `dt`: the `sum` kernel over `v * -1`
      and `v` shifted by `dt`, that is `v[i + dt] - v[i]` for every `i` in the
      window, with no absolute value. */
  function SignedDiffs(v: seq<int>, dt: nat): seq<int>
    requires dt <= |v|
  {
    seq(|v| - dt, i requires 0 <= i < |v| - dt => v[i] * -1 + v[i + dt])
  }

  /** `CLProcessor::alter_johnson(v, target_len)`: for every lag `dt` from 1
      to `target_len` (inclusive), the sum of the signed lagged differences,
      not divided by the window length. The lags must stay below `|v|`: a
      lag equal to `|v|` launches the `sum` kernel over an NDRange of size
      zero, whose outcome depends on the OpenCL runtime (an OpenCL 1.x
      runtime rejects it, and the bindings then throw; a runtime that
      accepts it leaves a stale cell to be read back), and a larger lag
      wraps the unsigned window length. */
  method ProcessorAlterJohnson(v: seq<int>, targetLen: nat) returns (result: seq<int>)
    requires targetLen < |v|
    ensures |result| == targetLen
    ensures forall dt :: 1 <= dt <= targetLen ==> result[dt - 1] == Sum(SignedDiffs(v, dt))
  {
    var res := new int[targetLen];
    var a := CoMath.MulScalar(v, -1);
    var b := v;
    var n := |a|;
    var bufferR := seq(n, _ => 0);
    var bufferCR := seq(n, _ => 0);
    for dt := 1 to targetLen + 1
      invariant |bufferR| == n && |bufferCR| == n
      invariant forall k :: 1 <= k < dt ==> res[k - 1] == Sum(SignedDiffs(v, k))
    {
      bufferR := EnqueueSum(n - dt, n, 0, dt, a, b, bufferR);
      assert bufferR[..n - dt] == SignedDiffs(v, dt);
      var total;
      total, bufferR, bufferCR := Accum(n - dt, bufferR, bufferCR);
      res[dt - 1] := total;
    }
    return res[..];
  }

  /** The device's lag-`dt` value telescopes: it is the sum of the last `dt`
      elements minus the sum of the first `dt`, whatever lies between. */
  lemma SignedDiffsTelescope(v: seq<int>, dt: nat)
    requires dt <= |v|
    ensures Sum(SignedDiffs(v, dt)) == Sum(v[|v| - dt..]) - Sum(v[..dt])
  {
    var n := |v|;
    var neg := seq(n - dt, i requires 0 <= i < n - dt => v[i] * -1);
    CoMath.SumOfPairwiseSums(neg, v[dt..], SignedDiffs(v, dt));
    SumNegated(v[..n - dt], neg);
    SplitSum(v, dt);
    SplitSum(v, n - dt);
  }

  lemma {:induction false} SumNegated(s: seq<int>, t: seq<int>)
    requires |s| == |t| && forall i :: 0 <= i < |s| ==> t[i] == s[i] * -1
    ensures Sum(t) == -Sum(s)
    decreases |s|
  {
    if |s| > 0 {
      SumNegated(s[..|s| - 1], t[..|t| - 1]);
    }
  }

  /** `alter_johnson<double>(a, part)` when OpenCL is enabled: the device
      routine with `target_len = ceil(n * part)`, one lag more than the host
      transform computes. */
  method AlterJohnsonOnDevice(a: seq<int>, num: nat, den: nat) returns (r: seq<int>)
    requires den > 0 && 0 < num <= den && |a| > 0
    requires CeilDiv(|a| * num, den) < |a|
    ensures |r| == CoMath.LagCount(|a|, num, den) + 1
    ensures forall dt :: 1 <= dt <= |r| ==> r[dt - 1] == Sum(SignedDiffs(a, dt))
  {
    r := ProcessorAlterJohnson(a, CeilDiv(|a| * num, den));
  }

  /** The device result disagrees with the host transform: for `[0, 1, 0]`
      with `part = 0.6` the host computes one lag with statistic 1, while the
      device computes two lags and reports 0 for lag 1. */
  lemma DeviceDisagreesWithHost()
    ensures CoMath.LagCount(3, 3, 5) == 1 && CeilDiv(3 * 3, 5) == 2
    ensures CoMath.MeanAbsSlip([0, 1, 0], 1) == 1
    ensures Sum(SignedDiffs([0, 1, 0], 1)) == 0
  {
    var v := [0, 1, 0];
    assert CoMath.AbsDiffs(v, 1) == [1, 1];
    assert SignedDiffs(v, 1) == [1, -1];
    assert [1, 1][..1] == [1] && [1, -1][..1] == [1];
    assert Sum([1]) == 1;
    assert Sum([1, 1]) == 2 && Sum([1, -1]) == 0;
  }

  /** One lag of the corrected device transform: the `sum` kernel builds
      `v[i + dt] - v[i]` in `bufferR`, the copied-back window is made
      absolute on the host, the tree reduction adds it up and the total is
      divided by the window length, which is the host's strike-slip value. */
  method DeviceStrikeSlip(v: seq<int>, negated: seq<int>, dt: nat, bufferR: seq<int>, bufferCR: seq<int>)
    returns (m: int, bufferROut: seq<int>, bufferCROut: seq<int>)
    requires 0 < dt < |v| && |negated| == |bufferR| == |bufferCR| == |v|
    requires forall i :: 0 <= i < |v| ==> negated[i] == v[i] * -1
    ensures m == CoMath.MeanAbsSlip(v, dt)
    ensures |bufferROut| == |bufferCROut| == |v|
  {
    var n := |v|;
    var diffs := EnqueueSum(n - dt, n, 0, dt, negated, v, bufferR);
    var sslip := AbsoluteWindow(v, dt, diffs);
    var total;
    total, bufferROut, bufferCROut := Accum(n - dt, sslip, bufferCR);
    m := total / (n - dt);
  }

  /** The host-side step the corrected transform adds: replace each of the
      first `|v| - dt` cells, which hold `v[i + dt] - v[i]`, by its absolute
      value. */
  method AbsoluteWindow(v: seq<int>, dt: nat, diffs: seq<int>) returns (sslip: seq<int>)
    requires dt < |v| == |diffs|
    requires forall i :: 0 <= i < |v| - dt ==> diffs[i] == v[i] * -1 + v[i + dt]
    ensures |sslip| == |v|
    ensures sslip[..|v| - dt] == CoMath.AbsDiffs(v, dt)
  {
    var n := |v|;
    sslip := diffs;
    for i := 0 to n - dt
      invariant |sslip| == n
      invariant forall j :: 0 <= j < i ==> sslip[j] == Abs(v[j] - v[j + dt])
      invariant forall j :: i <= j < n - dt ==> sslip[j] == diffs[j]
    {
      assert Abs(sslip[i]) == Abs(v[i] - v[i + dt]);
      sslip := sslip[i := Abs(sslip[i])];
    }
    assert sslip[..n - dt] == CoMath.AbsDiffs(v, dt);
  }

  /** The device transform as the host defines it: lags 1 to
      `ceil(n * part) - 1`, each computed by DeviceStrikeSlip. It agrees with
      the host transform on every input. */
  method AlterJohnsonOnDeviceCorrected(v: seq<int>, num: nat, den: nat) returns (result: seq<int>)
    requires den > 0 && 0 < num <= den && |v| > 0
    ensures |result| == CoMath.LagCount(|v|, num, den)
    ensures forall k :: 0 <= k < |result| ==> result[k] == CoMath.MeanAbsSlip(v, k + 1)
  {
    var lags := CoMath.LagCount(|v|, num, den);
    var res := new int[lags];
    var a := CoMath.MulScalar(v, -1);
    var bufferR := seq(|v|, _ => 0);
    var bufferCR := seq(|v|, _ => 0);
    for dt := 1 to lags + 1
      invariant |bufferR| == |bufferCR| == |v|
      invariant forall k :: 1 <= k < dt ==> res[k - 1] == CoMath.MeanAbsSlip(v, k)
    {
      res[dt - 1], bufferR, bufferCR := DeviceStrikeSlip(v, a, dt, bufferR, bufferCR);
    }
    return res[..];
  }
}
