# Multidimensional Simpson integrator, TBB variant

A Dafny model of `SimpsonTaskTbb`, the task that estimates the integral of a
scalar function over an axis-aligned box by the composite Simpson rule on a
regular grid. The model follows the task's life cycle:

- **validation** checks the shape of the task data and that every bound has
  `lo <= hi`;
- **preprocessing** copies the bounds, the integrand and the sample count
  `approxs`. It then computes one step per axis, the cell count
  `gridcap = approxs^arity` and the scale factor `Π step / 3`;
- **the run** cuts the cell range `[0, gridcap)` into contiguous ranges. For
  each cell of a range it decodes the cell index into a per-axis position,
  builds the sample point and multiplies up the Simpson weight 1, 4 or 2 of
  every axis. It adds `coefficient * f(point)` to the range's sum. The
  partial sums are then added and the total is scaled;
- **post-processing** writes the estimate to the output slot.

Files and modules:

- `grid_index.dfy` (`GridIndex`): the mixed-radix decoding of a cell index.
  It proves that the decoding is a bijection between `[0, approxs^arity)` and
  the position vectors.
- `weight_rule.dfy` (`WeightRule`): the per-axis weight and the cell
  coefficient. It proves their bounds and the tensor-product sum of all the
  coefficients.
- `quadrature.dfy` (`Quadrature`): the grid, the sample points, the weighted
  sum over a range of cells, the scale factor and the estimate, as
  pure functions. It proves that partial sums over any contiguous
  split add up to the full sum.
- `exactness.dfy` (`Exactness`): what the estimate is for the integrand 1.
  This is where the finding below is proved.
- `simpson_task_tbb.dfy` (`SimpsonTbb`): the task data, and the class
  `SimpsonTaskTbb` with its fields.
  - Validation is a function.
  - Preprocessing, the decode, coordinate and coefficient loops, the
    accumulation over a range, the reduction, the run and post-processing
    are methods.
  - Each method is proved against the pure functions of `Quadrature`.
  - `RunTask` chains the four steps the way the tests drive them.

Numbers are exact: `double` is modelled by `real`, and `size_t` by `nat`. The
integrand is an abstract total function `seq<real> -> real`. The parallel
reduction is modelled by the sequence `cuts` of cut points it splits
`[0, gridcap)` at. Each range is accumulated from 0, and the partial sums are
added in range order.

The code does not guard against `approxs^arity` overflowing `size_t` or
losing precision in `std::pow`, so preprocessing and `RunTask` require
`approxs^arity <= 2^53`.

## Model

| member | source | states |
|---|---|---|
| GridIndex.Pow | tasks/tbb/korobeinikov_simpson_multidim/src/ops_tbb_korobeinikov.cpp:41 | `approxs^arity` as an exact integer; positive for a positive base, 1 for base 1 |
| GridIndex.Digits | tasks/tbb/korobeinikov_simpson_multidim/src/ops_tbb_korobeinikov.cpp:57-61 | the decoded position vector has exactly `arity` components, each in `[0, approxs)` |
| GridIndex.DigitsDrop | tasks/tbb/korobeinikov_simpson_multidim/src/ops_tbb_korobeinikov.cpp:58-61 | one pass of the decode loop: the next component is the remainder of what is left, and the rest is the decoding of the quotient |
| GridIndex.ValueOfDigits | tasks/tbb/korobeinikov_simpson_multidim/src/ops_tbb_korobeinikov.cpp:57-61 | decoding is the mixed-radix inverse: `Σ gridpos[i] * approxs^i == ip` for every `ip < approxs^arity` |
| GridIndex.ValueBelowPow | tasks/tbb/korobeinikov_simpson_multidim/src/ops_tbb_korobeinikov.cpp:51 | every position vector encodes to an index inside `[0, gridcap)` |
| GridIndex.DigitsOfValue | tasks/tbb/korobeinikov_simpson_multidim/src/ops_tbb_korobeinikov.cpp:57-61 | encoding a position vector and decoding the index gives the vector back |
| GridIndex.DigitsInjective | tasks/tbb/korobeinikov_simpson_multidim/src/ops_tbb_korobeinikov.cpp:51-61 | distinct indices in `[0, gridcap)` decode to distinct positions: no grid point is visited twice |
| GridIndex.DigitsSurjective | tasks/tbb/korobeinikov_simpson_multidim/src/ops_tbb_korobeinikov.cpp:51-61 | every position vector is the decoding of an index in `[0, gridcap)`: every grid point is visited |
| GridIndex.DigitsOfBlock | tasks/tbb/korobeinikov_simpson_multidim/src/ops_tbb_korobeinikov.cpp:59-60 | decoding `approxs*q + r` puts `r` on axis 0 and the decoding of `q` on the other axes |
| WeightRule.AxisWeight | tasks/tbb/korobeinikov_simpson_multidim/src/ops_tbb_korobeinikov.cpp:70-76 | the per-axis weight is 1, 2 or 4; 1 on both boundary samples, tested before parity |
| WeightRule.Coefficient | tasks/tbb/korobeinikov_simpson_multidim/src/ops_tbb_korobeinikov.cpp:68-77 | the coefficient of a cell is the product of its per-axis weights, axis 0 first, and it is always positive |
| WeightRule.CoefficientBounds | tasks/tbb/korobeinikov_simpson_multidim/src/ops_tbb_korobeinikov.cpp:68-77 | a cell coefficient lies in `[1, 4^arity]` |
| WeightRule.CoefficientAppend | tasks/tbb/korobeinikov_simpson_multidim/src/ops_tbb_korobeinikov.cpp:68-77 | the coefficient of concatenated positions is the product of the parts' coefficients |
| WeightRule.CoefficientCons | tasks/tbb/korobeinikov_simpson_multidim/src/ops_tbb_korobeinikov.cpp:69-77 | prepending an axis multiplies the coefficient by that axis' weight |
| WeightRule.CoefficientSnoc | tasks/tbb/korobeinikov_simpson_multidim/src/ops_tbb_korobeinikov.cpp:69-77 | appending an axis multiplies the coefficient by that axis' weight: the step of the running product |
| WeightRule.CoefficientOfOrigin | tasks/tbb/korobeinikov_simpson_multidim/src/ops_tbb_korobeinikov.cpp:68-77 | the all-zero position has coefficient 1 |
| WeightRule.CoefficientOneAxis | tasks/tbb/korobeinikov_simpson_multidim/src/ops_tbb_korobeinikov.cpp:68-77 | with one axis the coefficient is that axis' weight |
| WeightRule.AxisWeightSymmetric | tasks/tbb/korobeinikov_simpson_multidim/src/ops_tbb_korobeinikov.cpp:70-76 | for an odd sample count the weights read the same from both ends |
| WeightRule.WeightPrefixSumInterior | tasks/tbb/korobeinikov_simpson_multidim/src/ops_tbb_korobeinikov.cpp:70-76 | before the last sample the weights 1,4,2,4,... sum to `3m-2` (odd `m`) or `3m-1` (even `m`) |
| WeightRule.WeightSumClosedForm | tasks/tbb/korobeinikov_simpson_multidim/src/ops_tbb_korobeinikov.cpp:70-76 | one axis' weights sum to `3(n-1)` for odd `n`, `3n-4` for even `n > 1`, and 1 for `n = 1` |
| WeightRule.CellWeightSumSplit | tasks/tbb/korobeinikov_simpson_multidim/src/ops_tbb_korobeinikov.cpp:68-77 | coefficient sums over adjacent index ranges add up |
| WeightRule.CellWeightSumBlock | tasks/tbb/korobeinikov_simpson_multidim/src/ops_tbb_korobeinikov.cpp:57-77 | the cells `approxs*q .. approxs*q + r - 1` weigh the coefficient of `q` on the other axes times the first `r` axis-0 weights |
| WeightRule.CellWeightSumBlocks | tasks/tbb/korobeinikov_simpson_multidim/src/ops_tbb_korobeinikov.cpp:57-77 | the first `approxs*m` cells weigh one axis' weight sum times the first `m` cells of one dimension less |
| WeightRule.CellWeightSumTotal | tasks/tbb/korobeinikov_simpson_multidim/src/ops_tbb_korobeinikov.cpp:51-77 | the coefficients of all `approxs^arity` cells sum to the `arity`-th power of one axis' weight sum |
| Quadrature.Steps | tasks/tbb/korobeinikov_simpson_multidim/src/ops_tbb_korobeinikov.cpp:38-39 | one step per axis (the step of an axis is its width divided by `approxs`) |
| Quadrature.ScaleOf | tasks/tbb/korobeinikov_simpson_multidim/src/ops_tbb_korobeinikov.cpp:42 | the scale factor is the left fold `acc * step / 3` from 1; it is not negative when no step is negative |
| Quadrature.Term | tasks/tbb/korobeinikov_simpson_multidim/src/ops_tbb_korobeinikov.cpp:79 | a cell contributes its coefficient times the integrand at its point, so its contribution has the sign of that sample |
| Quadrature.RangeSum | tasks/tbb/korobeinikov_simpson_multidim/src/ops_tbb_korobeinikov.cpp:55-80 | the sum of the cell contributions over `[b, e)`, as one range of the reduction accumulates it; not negative for an integrand that is nowhere negative |
| Quadrature.PartialSums | tasks/tbb/korobeinikov_simpson_multidim/src/ops_tbb_korobeinikov.cpp:84 | the per-range sums of a partition added in range order, as `std::plus` combines them; not negative for a non-negative integrand |
| Quadrature.Estimate | tasks/tbb/korobeinikov_simpson_multidim/src/ops_tbb_korobeinikov.cpp:87 | the estimate is the whole-grid sum times the scale factor; not negative for a non-negative integrand on a grid without negative steps |
| Quadrature.Integrate | tasks/tbb/korobeinikov_simpson_multidim/src/ops_tbb_korobeinikov.cpp:38-87 | the value the task computes for `bounds`, `approxs` and the integrand; like an integral, not negative for a non-negative integrand over ordered bounds |
| Quadrature.Coord | tasks/tbb/korobeinikov_simpson_multidim/src/ops_tbb_korobeinikov.cpp:64-66 | the point of a position has one coordinate per axis (`lo + pos * step`) |
| Quadrature.TimesIsProduct | tasks/tbb/korobeinikov_simpson_multidim/src/ops_tbb_korobeinikov.cpp:79 | the weight-times-value used by the weighted sum is the real product `coefficient * f(coord)` |
| Quadrature.TermAsProduct | tasks/tbb/korobeinikov_simpson_multidim/src/ops_tbb_korobeinikov.cpp:79 | the real product of a cell's coefficient and the integrand at its point is that cell's term of the sum |
| Quadrature.EstimateOfSum | tasks/tbb/korobeinikov_simpson_multidim/src/ops_tbb_korobeinikov.cpp:87 | the estimate is the weighted sum times the scale factor |
| Quadrature.EstimateOfScaledSum | tasks/tbb/korobeinikov_simpson_multidim/src/ops_tbb_korobeinikov.cpp:87 | `result = isum * scale` with `scale` the scale factor of the steps is the estimate |
| Quadrature.IntegrateOverGrid | tasks/tbb/korobeinikov_simpson_multidim/src/ops_tbb_korobeinikov.cpp:38-39 | a grid with step `(hi - lo) / approxs` on every axis is the grid the estimate is defined over |
| Quadrature.RangeSumSplit | tasks/tbb/korobeinikov_simpson_multidim/src/ops_tbb_korobeinikov.cpp:52-84 | sums over adjacent cell ranges add up to the sum over their union |
| Quadrature.PartitionedSum | tasks/tbb/korobeinikov_simpson_multidim/src/ops_tbb_korobeinikov.cpp:49-84 | however `[0, gridcap)` is cut into contiguous ranges, adding the partial sums gives the full sum (what the `+` reduction relies on) |
| Quadrature.CoordInBox | tasks/tbb/korobeinikov_simpson_multidim/src/ops_tbb_korobeinikov.cpp:64-66 | with `lo <= hi` every sample lies in `[lo, hi]`, and strictly below `hi` on a non-degenerate axis |
| Quadrature.ScaleOfZeroStep | tasks/tbb/korobeinikov_simpson_multidim/src/ops_tbb_korobeinikov.cpp:42 | a zero step makes the scale factor zero |
| Quadrature.ScaleOfPositive | tasks/tbb/korobeinikov_simpson_multidim/src/ops_tbb_korobeinikov.cpp:42 | positive steps make a positive scale factor |
| Quadrature.DegenerateAxisGivesZero | tasks/tbb/korobeinikov_simpson_multidim/src/ops_tbb_korobeinikov.cpp:39-42 | an axis with `lo == hi` makes the estimate exactly 0 for any integrand |
| Quadrature.ProperBoundsGivePositiveScale | tasks/tbb/korobeinikov_simpson_multidim/src/ops_tbb_korobeinikov.cpp:39-42 | bounds with `lo < hi` on every axis give a positive scale factor |
| Exactness.ConstantRangeSum | tasks/tbb/korobeinikov_simpson_multidim/src/ops_tbb_korobeinikov.cpp:68-79 | for a constant integrand `c` the weighted sum over `[0, e)` is the coefficient sum copies of `c` |
| Exactness.ScaleTimesWeights | tasks/tbb/korobeinikov_simpson_multidim/src/ops_tbb_korobeinikov.cpp:42 | the scale factor times `W^arity` is the product over the axes of `step * W / 3` |
| Exactness.UnitGridSum | tasks/tbb/korobeinikov_simpson_multidim/src/ops_tbb_korobeinikov.cpp:55-80 | for the integrand 1 the whole-grid sum is `W^arity`, `W` one axis' weight sum |
| Exactness.UnitEstimate | tasks/tbb/korobeinikov_simpson_multidim/src/ops_tbb_korobeinikov.cpp:55-87 | for the integrand 1 the estimate is the product over the axes of `step * W / 3` |
| Exactness.UnitAsWritten | tasks/tbb/korobeinikov_simpson_multidim/src/ops_tbb_korobeinikov.cpp:38-87 | the integrator as written, on the integrand 1, gives the product over the axes of `(hi - lo) / n * W / 3` |
| Exactness.UnitIntervalAsWritten | tasks/tbb/korobeinikov_simpson_multidim/src/ops_tbb_korobeinikov.cpp:39 | the integrand 1 on `[0, 1]` with 3 samples gives 2/3, while the volume is 1 |
| Exactness.CorrectedSteps | tasks/tbb/korobeinikov_simpson_multidim/src/ops_tbb_korobeinikov.cpp:39 | one corrected step per axis (width over `n - 1`, so the `n` samples reach `hi`) |
| Exactness.CorrectedAxisProduct | tasks/tbb/korobeinikov_simpson_multidim/src/ops_tbb_korobeinikov.cpp:39-42 | with the corrected steps and an odd `n` the per-axis factors multiply to the volume |
| Exactness.CorrectedUnitIsVolume | tasks/tbb/korobeinikov_simpson_multidim/src/ops_tbb_korobeinikov.cpp:39 | the corrected rule integrates the integrand 1 to the volume of the box, in every dimension, for every odd `n > 1` |
| Exactness.UnitIntervalCorrected | tasks/tbb/korobeinikov_simpson_multidim/src/ops_tbb_korobeinikov.cpp:39 | the corrected rule on `[0, 1]` with 3 samples gives 1 |
| SimpsonTbb.AllOrdered | tasks/tbb/korobeinikov_simpson_multidim/src/ops_tbb_korobeinikov.cpp:27 | true exactly when each of the first `arity` bounds has `lo <= hi` |
| SimpsonTbb.ShapeOk | tasks/tbb/korobeinikov_simpson_multidim/src/ops_tbb_korobeinikov.cpp:20-21 | the shape test: three inputs, at least one axis, exactly one output holding one value (its rejections are stated by `ValidationImpl`) |
| SimpsonTbb.SimpsonTaskTbb.ValidationImpl | tasks/tbb/korobeinikov_simpson_multidim/src/ops_tbb_korobeinikov.cpp:17-28 | rejects `inputs.size() != 3`, `arity == 0`, `outputs.size() != 1` and `outputs_count[0] != 1`; with the right shape, accepts exactly when every bound has `lo <= hi` |
| SimpsonTbb.SimpsonTaskTbb.PreProcessingImpl | tasks/tbb/korobeinikov_simpson_multidim/src/ops_tbb_korobeinikov.cpp:30-45 | copies `arity`, the first `arity` bounds, the integrand and `approxs`; `steps[i] = (hi - lo) / approxs`; `gridcap = approxs^arity` exactly; `scale` is the scale factor; `result` untouched |
| SimpsonTbb.SimpsonTaskTbb.FillSteps | tasks/tbb/korobeinikov_simpson_multidim/src/ops_tbb_korobeinikov.cpp:38-39 | `steps` gets `arity` entries, entry `i` the width of axis `i` over `approxs` |
| SimpsonTbb.SimpsonTaskTbb.AccumulateScale | tasks/tbb/korobeinikov_simpson_multidim/src/ops_tbb_korobeinikov.cpp:42 | the left fold `acc * step / 3` from 1 is the scale factor of the steps |
| SimpsonTbb.SimpsonTaskTbb.DecodeCell | tasks/tbb/korobeinikov_simpson_multidim/src/ops_tbb_korobeinikov.cpp:56-62 | `gridpos` holds the base-`approxs` digits of `ip`, axis 0 first |
| SimpsonTbb.SimpsonTaskTbb.CellCoordinates | tasks/tbb/korobeinikov_simpson_multidim/src/ops_tbb_korobeinikov.cpp:64-66 | `coordbuf` holds the point `lo + pos * step` of the position in `gridpos` |
| SimpsonTbb.SimpsonTaskTbb.CellCoefficient | tasks/tbb/korobeinikov_simpson_multidim/src/ops_tbb_korobeinikov.cpp:68-77 | the running product of the per-axis weights is the cell coefficient |
| SimpsonTbb.SimpsonTaskTbb.WeightedSample | tasks/tbb/korobeinikov_simpson_multidim/src/ops_tbb_korobeinikov.cpp:56-79 | decode, coordinates, coefficient and evaluation give that cell's term of the sum |
| SimpsonTbb.SimpsonTaskTbb.AccumulateRange | tasks/tbb/korobeinikov_simpson_multidim/src/ops_tbb_korobeinikov.cpp:52-83 | a range `[b, e)` returns `threadsum` plus the weighted sum over the cells of the range |
| SimpsonTbb.SimpsonTaskTbb.Reduce | tasks/tbb/korobeinikov_simpson_multidim/src/ops_tbb_korobeinikov.cpp:49-85 | partial sums of contiguous ranges, each started from 0 and added together, give the weighted sum over the whole range, whatever the split |
| SimpsonTbb.SimpsonTaskTbb.RunImpl | tasks/tbb/korobeinikov_simpson_multidim/src/ops_tbb_korobeinikov.cpp:47-90 | `result` is the estimate: the weighted sum over all `gridcap` cells times `scale`, whatever the split |
| SimpsonTbb.SimpsonTaskTbb.PostProcessingImpl | tasks/tbb/korobeinikov_simpson_multidim/src/ops_tbb_korobeinikov.cpp:92-95 | the first value of the output buffer becomes `result`; nothing else in it changes |
| SimpsonTbb.RunTask | tasks/seq/korobeinikov_simpson_multidim/func_tests/main_korobeinikov.cpp:34-39 | after validation, preprocessing, run and post-processing, a task is accepted exactly when its shape is right and its bounds are ordered; an accepted task has the estimate of the integral in its output slot, and a rejected task leaves its output buffer unchanged |

## Left out

- Scheduling by the task arena and `parallel_reduce` (tasks/tbb/korobeinikov_simpson_multidim/src/ops_tbb_korobeinikov.cpp lines 48-51).
  - The split is the parameter `cuts` of `RunImpl`: any contiguous partition
    of `[0, gridcap)`.
  - The combination of the partial sums is the left fold `PartialSums`.
  - Over exact reals the tree order in which the library may join partial
    sums gives the same total.
  - A body object that is reused across ranges corresponds to calling
    `AccumulateRange` with a non-zero `threadsum`, which its contract covers.
- IEEE-754 arithmetic: rounding, the non-associativity of `+`, and overflow to
  infinity. The accuracy of the estimate against the closed forms in the tests
  is not modelled either, because `real` is exact.
- SimpsonTbb.SimpsonTaskTbb.PreProcessingImpl: `gridcap` is the exact integer
  power. The source computes `std::pow` in double precision and casts it back;
  the precondition `approxs^arity <= 2^53` keeps that exact. Larger grids, and
  a `size_t` wrap-around, are not modelled.
- SimpsonTbb.SimpsonTaskTbb.PreProcessingImpl: requires `approxs > 0`. With
  `approxs == 0` the source divides by zero in floating point, which has no
  counterpart over `real`.
- SimpsonTbb.SimpsonTaskTbb.PreProcessingImpl and
  SimpsonTbb.SimpsonTaskTbb.ValidationImpl: the reinterpretation of raw
  `uint8_t*` buffers as bounds, function pointer, count and output double is
  modelled by the typed fields of `TaskData`. Reading past the end of a buffer
  is excluded by `Readable` and the preconditions.
- SimpsonTbb.SimpsonTaskTbb.constructor: the header that declares the fields
  and the constructor is not part of this model. The fields start from
  placeholder values that preprocessing overwrites.
- The MPI test harness, the performance harness and the commented-out OpenMP
  example: test drivers, wall-clock timing and distributed I/O, with no logic
  of the integrator.
- Exactness.UnitEstimate: the closed form is proved for the integrand 1 only.
  `Exactness.ConstantRangeSum` covers any constant over the weighted sum, but
  not the scaled estimate, since the real products make those proofs too
  costly for the solver.
- Quadrature.Times: the product of an integer coefficient and a real value is
  written as repeated addition. This keeps the sums linear for the solver, and
  `Quadrature.TimesIsProduct` proves it equal to the real product the source
  computes.

## Findings

| source | as written | input that shows it | evidently intended | confidence | as-written member | corrected member |
|---|---|---|---|---|---|---|
| tasks/tbb/korobeinikov_simpson_multidim/src/ops_tbb_korobeinikov.cpp:39 | `approxs` samples per axis spaced `(hi - lo) / approxs` from `lo`, weighted 1 4 2 ... 1, scaled by `step / 3`: the samples stop one step short of `hi`, and the estimate of the integrand 1 is `Π (hi - lo) / n * W / 3` with `W = 3(n-1)` (odd `n`) or `3n - 4` (even `n`) | integrand 1 on `[0, 1]` with `approxs = 3`: weights 1, 4, 1 and step 1/3 give 2/3 where the integral is 1 | contested: the tests contradict each other. The sequential tests (tasks/seq/korobeinikov_simpson_multidim/func_tests/main_korobeinikov.cpp:43, 82, 121) and the MPI test (tasks/all/korobeinikov_simpson_multidim/func_tests/main_korobeinikov.cpp:143) expect the exact integrals (1 - cos 1, 2/3, 2), which points to the textbook composite Simpson rule: samples from `lo` to `hi` spaced `(hi - lo) / (approxs - 1)`, with an odd `approxs`, which integrates the integrand 1 to the volume of the box. The performance test (tasks/stl/korobeinikov_simpson_multidim/perf_tests/main_korobeinikov.cpp:57) expects 1.5 ± 0.3 for `x0 + ... + x4` over `[0, 1]^6` with `approxs = 18`, whose integral is 2.5; worked out from the formula, the rule as written gives about 1.460 (inside) and the corrected step about 2.178 (outside), so that test accepts only the behaviour as written. The 3D case gives about 1.918 as written: inside the ± 0.1 of the sequential test at line 121, outside the ± 0.01 of the MPI test at line 143 if that variant uses the same formula. Every tested `approxs` is even (128, 512, 256, 18), which the corrected member excludes; for an even `approxs` the weights 1 4 2 ... 2 1 are not a Simpson pattern, and the corrected step does not give the volume either (`approxs = 4` on `[0, 1]` gives 8/9) | low to medium, since the tests disagree on the intent; not executed | Exactness.UnitIntervalAsWritten | Exactness.CorrectedUnitIsVolume |
