/**
 * What the integrator gives for a constant integrand.
 *
 * A constant integrand separates the weights, the steps and the scale factor
 * from the integrand.  For the integrand 1 the estimate is the product over
 * the axes of `step * W / 3`, where `W` is the sum of one axis' weights.  With
 * the step `(hi - lo) / n` used for `n` samples this is not the volume of the
 * domain; with the step `(hi - lo) / (n - 1)` and an odd `n` it is.
 */
module Exactness {
  import opened GridIndex
  import opened WeightRule
  import opened Quadrature

  /** The integrand that is `c` everywhere. */
  function Constant(c: real): Integrand
  {
    x => c
  }

  /** Volume of the domain: the product of the axis widths. */
  function Volume(bounds: seq<Bound>): real
  {
    if bounds == [] then 1.0
    else Volume(bounds[..|bounds| - 1]) * (bounds[|bounds| - 1].hi - bounds[|bounds| - 1].lo)
  }

  /** Product over the axes of `steps[i] * w / 3`. */
  function AxisProduct(steps: seq<real>, w: real): real
  {
    if steps == [] then 1.0 else AxisProduct(steps[..|steps| - 1], w) * (steps[|steps| - 1] * w / 3.0)
  }

  /** With a constant integrand the weighted sum is the coefficient sum times
      the constant. */
  lemma {:induction false} ConstantRangeSum(g: Grid, c: real, e: nat)
    requires g.WellFormed()
    ensures RangeSum(g, Constant(c), 0, e) == Times(CellWeightSum(g.approxs, |g.bounds|, 0, e), c)
    decreases e
  {
    if e > 0 {
      var n, k := g.approxs, |g.bounds|;
      var s, w := CellWeightSum(n, k, 0, e - 1), Coefficient(Digits(e - 1, n, k), n);
      assert RangeSum(g, Constant(c), 0, e - 1) == Times(s, c) by { ConstantRangeSum(g, c, e - 1); }
      assert Term(g, Constant(c), e - 1) == Times(w, c);
      TimesAdd(s, w, c);
    }
  }

  /** `x` raised to the `k`-th power, over the reals. */
  function RealPow(x: real, k: nat): real
  {
    if k == 0 then 1.0 else x * RealPow(x, k - 1)
  }

  /** The integer power, seen as a real, is the real power. */
  lemma {:induction false} PowAsReal(w: nat, k: nat)
    ensures Pow(w, k) as real == RealPow(w as real, k)
  {
    if k > 0 {
      PowAsReal(w, k - 1);
      CastProduct(w, Pow(w, k - 1), Pow(w, k));
    }
  }

  /** The product of two naturals, seen as a real. */
  lemma CastProduct(a: nat, b: nat, r: nat)
    requires r == a * b
    ensures r as real == (a as real) * (b as real)
  {
  }

  /** `(a * l / 3) * (w * p) == (a * p) * (l * w / 3)`. */
  lemma Regroup(a: real, l: real, w: real, p: real)
    ensures (a * l / 3.0) * (w * p) == (a * p) * (l * w / 3.0)
  {
  }

  /** The scale factor times the `k`-th power of the axis weight sum is the
      product over the axes of `step * w / 3`. */
  lemma {:induction false} ScaleTimesWeights(steps: seq<real>, w: real)
    ensures ScaleOf(steps) * RealPow(w, |steps|) == AxisProduct(steps, w)
  {
    if steps != [] {
      var init, last := steps[..|steps| - 1], steps[|steps| - 1];
      var a, p := ScaleOf(init), RealPow(w, |init|);
      assert a * p == AxisProduct(init, w) by { ScaleTimesWeights(init, w); }
      Regroup(a, last, w, p);
    }
  }

  /** Over the whole grid the integrand 1 sums to the `k`-th power of one
      axis' weight sum. */
  lemma UnitGridSum(g: Grid)
    requires g.WellFormed()
    ensures RangeSum(g, Constant(1.0), 0, g.Cells()) == RealPow(AxisWeightTotal(g.approxs) as real, |g.steps|)
  {
    var n, k := g.approxs, |g.bounds|;
    ConstantRangeSum(g, 1.0, g.Cells());
    TimesOne(CellWeightSum(n, k, 0, g.Cells()));
    CellWeightSumTotal(n, k);
    WeightSumClosedForm(n);
    PowAsReal(AxisWeightTotal(n), k);
  }

  /** The estimate of the integrand 1: the product over the axes of
      `step * W / 3`, `W` the weight sum of one axis. */
  lemma UnitEstimate(g: Grid)
    requires g.WellFormed()
    ensures Estimate(g, Constant(1.0)) == AxisProduct(g.steps, AxisWeightTotal(g.approxs) as real)
  {
    var p := RealPow(AxisWeightTotal(g.approxs) as real, |g.steps|);
    assert Estimate(g, Constant(1.0)) == p * ScaleOf(g.steps) by {
      UnitGridSum(g);
      EstimateOfSum(g, Constant(1.0), p);
    }
    ScaleTimesWeights(g.steps, AxisWeightTotal(g.approxs) as real);
  }

  // ---------------------------------------------------------------------
  // As written: `n` samples spaced `(hi - lo) / n`

  /** The integrator as written, on the integrand 1: the product over the axes
      of `(hi - lo) / n * W / 3`, with `W` the axis weight sum (`3n - 4` for
      even `n`, `3(n - 1)` for odd `n`), where the integral is the product of
      the `hi - lo`. */
  lemma UnitAsWritten(bounds: seq<Bound>, n: nat)
    requires n > 0
    ensures Integrate(bounds, n, Constant(1.0))
         == AxisProduct(Steps(bounds, n), AxisWeightTotal(n) as real)
  {
    UnitEstimate(Grid(bounds, Steps(bounds, n), n));
  }

  /** The integrand 1 on `[0, 1]` with 3 samples: weights 1, 4, 1 and step
      1/3 give 2/3, while the integral is 1. */
  lemma UnitIntervalAsWritten()
    ensures Volume([Bound(0.0, 1.0)]) == 1.0
    ensures Integrate([Bound(0.0, 1.0)], 3, Constant(1.0)) == 2.0 / 3.0
  {
    var bounds := [Bound(0.0, 1.0)];
    assert bounds[..0] == [];
    UnitAsWritten(bounds, 3);
    var steps := Steps(bounds, 3);
    assert steps[..0] == [] && steps[0] == 1.0 / 3.0;
  }

  // ---------------------------------------------------------------------
  // Corrected: `n` samples spaced `(hi - lo) / (n - 1)`, `n` odd

  /** Step of every axis when the `n` samples run from `lo` to `hi` inclusive. */
  function CorrectedSteps(bounds: seq<Bound>, n: nat): (steps: seq<real>)
    requires n > 1
    ensures |steps| == |bounds|
  {
    seq(|bounds|, i requires 0 <= i < |bounds| => (bounds[i].hi - bounds[i].lo) / ((n - 1) as real))
  }

  /** The estimate with the corrected steps. */
  function IntegrateCorrected(bounds: seq<Bound>, n: nat, f: Integrand): real
    requires n > 1
  {
    Estimate(Grid(bounds, CorrectedSteps(bounds, n), n), f)
  }

  /** `(d / m) * (3m) / 3 == d` for `m > 0`. */
  lemma StepTimesWeightSum(d: real, m: real)
    requires m > 0.0
    ensures (d / m) * (3.0 * m) / 3.0 == d
  {
  }

  /** With the corrected steps and odd `n` each axis contributes its width. */
  lemma {:induction false} CorrectedAxisProduct(bounds: seq<Bound>, n: nat)
    requires n > 1 && n % 2 == 1
    ensures AxisProduct(CorrectedSteps(bounds, n), AxisWeightTotal(n) as real) == Volume(bounds)
  {
    if bounds != [] {
      var init := bounds[..|bounds| - 1];
      var steps := CorrectedSteps(bounds, n);
      assert steps[..|steps| - 1] == CorrectedSteps(init, n);
      CorrectedAxisProduct(init, n);
      var last := bounds[|bounds| - 1];
      StepTimesWeightSum(last.hi - last.lo, (n - 1) as real);
    }
  }

  /** The corrected rule integrates the integrand 1 to the volume of the
      domain, on every box in every dimension. */
  lemma CorrectedUnitIsVolume(bounds: seq<Bound>, n: nat)
    requires n > 1 && n % 2 == 1
    ensures IntegrateCorrected(bounds, n, Constant(1.0)) == Volume(bounds)
  {
    UnitEstimate(Grid(bounds, CorrectedSteps(bounds, n), n));
    CorrectedAxisProduct(bounds, n);
  }

  /** The corrected rule on `[0, 1]` with 3 samples gives 1. */
  lemma UnitIntervalCorrected()
    ensures IntegrateCorrected([Bound(0.0, 1.0)], 3, Constant(1.0)) == 1.0
  {
    CorrectedUnitIsVolume([Bound(0.0, 1.0)], 3);
    assert [Bound(0.0, 1.0)][..0] == [];
  }
}
