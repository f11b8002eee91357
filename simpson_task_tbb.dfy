/**
 * The task object `SimpsonTaskTbb`: validation of the task data, the
 * precomputation of the grid, the accumulation of the weighted samples and the
 * write-back of the estimate.
 *
 * The task data is the record of untyped buffers the framework hands over,
 * here with its buffers already typed: `bounds` is what `inputs[0]` points to,
 * `integrand` the function `inputs[1]` points to, `approxs` the count
 * `inputs[2]` points to, and `outputs[0]` the result slot.  The parallel
 * reduction is modelled by the cut points of the index range it splits the
 * grid into.
 */
module SimpsonTbb {
  import opened GridIndex
  import opened WeightRule
  import opened Quadrature

  /** The task data: the number of input buffers, the element counts, the
      typed contents of the input buffers and the output buffers. */
  datatype TaskData = TaskData(
    inputSlots: nat,
    inputsCount: seq<nat>,
    bounds: seq<Bound>,
    integrand: Integrand,
    approxs: nat,
    outputs: seq<array<real>>,
    outputsCount: seq<nat>)

  /** What validation reads without a guard: the first input count always,
      the first output count whenever there is exactly one output, and
      `inputsCount[0]` bounds once the shape is right. */
  predicate Readable(td: TaskData)
  {
    |td.inputsCount| > 0 && (|td.outputs| == 1 ==> |td.outputsCount| > 0) &&
    (ShapeOk(td) ==> td.inputsCount[0] <= |td.bounds|)
  }

  /** Three inputs, at least one axis, one output holding one value. */
  predicate ShapeOk(td: TaskData)
    requires |td.inputsCount| > 0 && (|td.outputs| == 1 ==> |td.outputsCount| > 0)
  {
    td.inputSlots == 3 && td.inputsCount[0] > 0 && |td.outputs| == 1 && td.outputsCount[0] == 1
  }

  /** Whether each of the first `m` bounds has `lo <= hi`. */
  function AllOrdered(bs: seq<Bound>, m: nat): (ok: bool)
    requires m <= |bs|
    ensures ok <==> forall i :: 0 <= i < m ==> bs[i].lo <= bs[i].hi
  {
    if m == 0 then true else AllOrdered(bs, m - 1) && bs[m - 1].lo <= bs[m - 1].hi
  }

  /** Largest cell count for which `approxs^arity` computed in double precision
      and cast back is still exact: `2^53`. */
  const MaxExactCells: nat := 0x20_0000_0000_0000

  class SimpsonTaskTbb {
    const taskData: TaskData
    var arity: nat
    var bounds: seq<Bound>
    var func: Integrand
    var approxs: nat
    var steps: seq<real>
    var gridcap: nat
    var scale: real
    var result: real

    /** The grid the fields describe. */
    ghost function Domain(): Grid
      reads this
    {
      Grid(bounds, steps, approxs)
    }

    /** The state preprocessing establishes: one bound and one step per axis,
        each step the axis width over `approxs`, `approxs^arity` cells and the
        scale factor of the steps. */
    ghost predicate Prepared()
      reads this
    {
      Sized() && gridcap == Pow(approxs, arity) && scale == ScaleOf(steps) &&
      forall i :: 0 <= i < arity ==> steps[i] == (bounds[i].hi - bounds[i].lo) / (approxs as real)
    }

    /** What the accumulation relies on: at least one sample per axis, and
        one bound and one step per axis. */
    ghost predicate Sized()
      reads this
    {
      approxs > 0 && |bounds| == arity && |steps| == arity
    }

    /** A task over `td`; the other fields are placeholders until
        preprocessing. */
    constructor (td: TaskData)
      ensures taskData == td
    {
      taskData := td;
      arity, bounds, func, approxs := 0, [], _ => 0.0, 0;
      steps, gridcap, scale, result := [], 0, 0.0, 0.0;
    }

    /** Validation: a wrong shape is rejected; a right shape is accepted
        exactly when every one of the `arity` bounds has `lo <= hi`. */
    function ValidationImpl(): (ok: bool)
      requires Readable(taskData)
      ensures taskData.inputSlots != 3 ==> !ok
      ensures taskData.inputsCount[0] == 0 ==> !ok
      ensures |taskData.outputs| != 1 ==> !ok
      ensures |taskData.outputs| == 1 && taskData.outputsCount[0] != 1 ==> !ok
      ensures ShapeOk(taskData) ==>
        (ok <==> forall i :: 0 <= i < taskData.inputsCount[0] ==> taskData.bounds[i].lo <= taskData.bounds[i].hi)
    {
      ShapeOk(taskData) && AllOrdered(taskData.bounds, taskData.inputsCount[0])
    }

    /** Preprocessing: copy the bounds, the integrand and the sample count out
        of the task data, then compute the steps, the cell count and the scale
        factor. */
    method PreProcessingImpl()
      requires taskData.inputSlots >= 3 && |taskData.inputsCount| > 0
      requires taskData.inputsCount[0] <= |taskData.bounds|
      requires taskData.approxs > 0
      requires Pow(taskData.approxs, taskData.inputsCount[0]) <= MaxExactCells
      modifies this
      ensures arity == taskData.inputsCount[0]
      ensures bounds == taskData.bounds[..arity]
      ensures func == taskData.integrand && approxs == taskData.approxs
      ensures |steps| == arity
      ensures forall i :: 0 <= i < arity ==> steps[i] == (bounds[i].hi - bounds[i].lo) / (approxs as real)
      ensures gridcap == Pow(approxs, arity)
      ensures scale == ScaleOf(steps)
      ensures result == old(result)
      ensures Prepared()
    {
      arity := taskData.inputsCount[0];
      bounds := taskData.bounds[..arity];
      func := taskData.integrand;
      approxs := taskData.approxs;

      FillSteps();
      gridcap := Pow(approxs, arity);
      scale := AccumulateScale();
    }

    /** The per-axis steps, written in place over a zeroed vector of `arity`
        entries: each axis width divided by `approxs`. */
    method FillSteps()
      requires approxs > 0 && |bounds| == arity
      modifies this`steps
      ensures |steps| == arity
      ensures forall i :: 0 <= i < arity ==> steps[i] == (bounds[i].hi - bounds[i].lo) / (approxs as real)
    {
      steps := seq(arity, _ => 0.0);
      var i := 0;
      while i < arity
        invariant 0 <= i <= arity && |steps| == arity
        invariant forall j :: 0 <= j < i ==> steps[j] == (bounds[j].hi - bounds[j].lo) / (approxs as real)
      {
        steps := steps[i := (bounds[i].hi - bounds[i].lo) / (approxs as real)];
        i := i + 1;
      }
    }

    /** The scale factor: starting from 1, each step multiplied in and
        divided by 3, axis 0 first. */
    method AccumulateScale() returns (acc: real)
      ensures acc == ScaleOf(steps)
    {
      acc := 1.0;
      var i := 0;
      while i < |steps|
        invariant 0 <= i <= |steps|
        invariant acc == ScaleOf(steps[..i])
      {
        assert steps[..i + 1][..i] == steps[..i];
        acc := acc * steps[i] / 3.0;
        i := i + 1;
      }
      assert steps[..i] == steps;
    }

    /** Decodes cell `ip` into its per-axis positions, axis 0 first: the
        base-`approxs` digits of `ip`. */
    method DecodeCell(ip: nat, gridpos: array<nat>)
      requires approxs > 0 && gridpos.Length == arity
      modifies gridpos
      ensures gridpos[..] == Digits(ip, approxs, arity)
    {
      var n, k := approxs, arity;
      ghost var ds := Digits(ip, n, k);
      var p: nat := ip;
      for i := 0 to k
        invariant forall j :: 0 <= j < i ==> gridpos[j] == ds[j]
        invariant ds[i..] == Digits(p, n, k - i)
      {
        DigitsDrop(ds, i, p, n, k);
        gridpos[i] := p % n;
        p := p / n;
      }
    }

    /** Fills `coordbuf` with the point of the grid position in `gridpos`:
        `lo + pos * step` on each axis. */
    method CellCoordinates(gridpos: array<nat>, coordbuf: array<real>)
      requires Sized() && gridpos.Length == arity && coordbuf.Length == arity
      modifies coordbuf
      ensures coordbuf[..] == Coord(Domain(), gridpos[..])
    {
      var bs, st := bounds, steps;
      for i := 0 to arity
        invariant forall j :: 0 <= j < i ==> coordbuf[j] == bs[j].lo + (gridpos[j] as real) * st[j]
      {
        coordbuf[i] := bs[i].lo + (gridpos[i] as real) * st[i];
      }
      forall j | 0 <= j < arity ensures coordbuf[..][j] == Coord(Domain(), gridpos[..])[j] {
      }
    }

    /** The coefficient of the grid position in `gridpos`, multiplied up one
        axis at a time. */
    method CellCoefficient(gridpos: array<nat>) returns (coefficient: real)
      ensures coefficient == Coefficient(gridpos[..], approxs) as real
    {
      var n := approxs;
      coefficient := 1.0;
      for i := 0 to gridpos.Length
        invariant coefficient == Coefficient(gridpos[..i], n) as real
      {
        var pos := gridpos[i];
        CoefficientSnoc(gridpos[..i], pos, n);
        assert gridpos[..i + 1] == gridpos[..i] + [pos];
        if pos == 0 || pos == approxs - 1 {
          coefficient := coefficient * 1.0;
        } else if pos % 2 != 0 {
          coefficient := coefficient * 4.0;
        } else {
          coefficient := coefficient * 2.0;
        }
      }
      assert gridpos[..gridpos.Length] == gridpos[..];
    }

    /** The weighted evaluation of cell `ip`: its position decoded into
        `gridpos`, its point built in `coordbuf`, its coefficient multiplied
        up, and the integrand at the point scaled by the coefficient. */
    method WeightedSample(ip: nat, gridpos: array<nat>, coordbuf: array<real>) returns (t: real)
      requires Sized() && gridpos.Length == arity && coordbuf.Length == arity
      modifies gridpos, coordbuf
      ensures t == Term(Domain(), func, ip)
    {
      ghost var g := Domain();
      var f := func;
      DecodeCell(ip, gridpos);
      CellCoordinates(gridpos, coordbuf);
      var coefficient := CellCoefficient(gridpos);
      var x := coordbuf[..];
      TermAsProduct(g, f, ip, coefficient, x);
      t := coefficient * f(x);
      assert g == Domain() && f == func;
    }

    /** The body of the reduction over the cell range `[b, e)`: adds the
        weighted evaluation of every cell of the range to `threadsum`. */
    method AccumulateRange(b: nat, e: nat, threadsum: real) returns (s: real)
      requires Sized() && b <= e
      ensures s == threadsum + RangeSum(Domain(), func, b, e)
    {
      var gridpos := new nat[arity];
      var coordbuf := new real[arity];
      s := threadsum;
      var ip := b;
      while ip < e
        invariant b <= ip <= e
        invariant s == threadsum + RangeSum(Domain(), func, b, ip)
      {
        var t := WeightedSample(ip, gridpos, coordbuf);
        s := s + t;
        ip := ip + 1;
      }
    }

    /** The reduction: the cells `[cuts[0], cuts[|cuts| - 1])` split at `cuts`
        into contiguous ranges, each range accumulated from 0 and the partial
        sums added.  Whatever the split, the total is the sum over all the
        cells. */
    method Reduce(cuts: seq<nat>) returns (isum: real)
      requires Sized() && IsPartition(cuts)
      ensures isum == RangeSum(Domain(), func, cuts[0], cuts[|cuts| - 1])
    {
      isum := 0.0;
      var j := 0;
      while j < |cuts| - 1
        invariant 0 <= j <= |cuts| - 1
        invariant isum == PartialSums(Domain(), func, cuts[..j + 1])
      {
        var threadsum := AccumulateRange(cuts[j], cuts[j + 1], 0.0);
        assert cuts[..j + 2][..j + 1] == cuts[..j + 1];
        isum := isum + threadsum;
        j := j + 1;
      }
      assert cuts[..j + 1] == cuts;
      PartitionedSum(Domain(), func, cuts);
    }

    /** The run: the reduction over all `gridcap` cells, scaled.  Whatever
        the split, the result is the estimate of the integral. */
    method RunImpl(cuts: seq<nat>)
      requires Prepared() && IsPartition(cuts)
      requires cuts[0] == 0 && cuts[|cuts| - 1] == gridcap
      modifies this`result
      ensures result == Integrate(bounds, approxs, func)
    {
      var isum := Reduce(cuts);
      var r := isum * scale;
      EstimateOfScaledSum(Domain(), func, isum, scale, r);
      IntegrateOverGrid(bounds, approxs, func, Domain());
      result := r;
    }

    /** Post-processing: the result goes to the first value of the output
        buffer, and nothing else there changes. */
    method PostProcessingImpl()
      requires |taskData.outputs| >= 1 && taskData.outputs[0].Length >= 1
      modifies taskData.outputs[0]
      ensures taskData.outputs[0][0] == result
      ensures taskData.outputs[0][1..] == old(taskData.outputs[0][1..])
    {
      taskData.outputs[0][0] := result;
    }
  }

  /** The life cycle the tests drive: validation, then preprocessing, the run
      and post-processing.  A task that validates leaves the estimate of the
      integral over its bounds in the output slot, whatever the split. */
  method RunTask(td: TaskData, cuts: seq<nat>) returns (ok: bool)
    requires Readable(td) && td.approxs > 0
    requires |td.outputs| == 1 && |td.outputsCount| > 0 ==> td.outputs[0].Length == td.outputsCount[0]
    requires Pow(td.approxs, td.inputsCount[0]) <= MaxExactCells
    requires IsPartition(cuts) && cuts[0] == 0 && cuts[|cuts| - 1] == Pow(td.approxs, td.inputsCount[0])
    modifies if |td.outputs| > 0 then {td.outputs[0]} else {}
    ensures ok <==> ShapeOk(td) && forall i :: 0 <= i < td.inputsCount[0] ==> td.bounds[i].lo <= td.bounds[i].hi
    ensures ok ==> td.outputs[0][0] == Integrate(td.bounds[..td.inputsCount[0]], td.approxs, td.integrand)
    ensures !ok && |td.outputs| > 0 ==> td.outputs[0][..] == old(td.outputs[0][..])
  {
    var task := new SimpsonTaskTbb(td);
    ok := task.ValidationImpl();
    if ok {
      task.PreProcessingImpl();
      assert task.Prepared() && task.gridcap == cuts[|cuts| - 1];
      task.RunImpl(cuts);
      assert task.result == Integrate(td.bounds[..td.inputsCount[0]], td.approxs, td.integrand);
      task.PostProcessingImpl();
    }
  }
}
