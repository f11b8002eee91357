/**
 * Quadrature kernel of the multidimensional Simpson integrator, over exact
 * reals.
 *
 * Every cell `ip` of the grid contributes `coefficient(ip) * f(coord(ip))`;
 * the estimate is the sum of these contributions over all `n^k` cells times
 * the scale factor `Π steps[i] / 3`.
 */
module Quadrature {
  import opened GridIndex
  import opened WeightRule

  /** The integration interval of one axis. */
  datatype Bound = Bound(lo: real, hi: real)

  /** The integrand: a pure function of a point of the domain. */
  type Integrand = seq<real> -> real

  /** An integrand that is not negative at any point. */
  ghost predicate NonNegative(f: Integrand)
  {
    forall x :: f(x) >= 0.0
  }

  /** The implicit grid: the domain, the step on each axis and the number of
      samples per axis. */
  datatype Grid = Grid(bounds: seq<Bound>, steps: seq<real>, approxs: nat)
  {
    predicate WellFormed()
    {
      |steps| == |bounds| && approxs > 0
    }

    /** Number of cells, `approxs^arity`. */
    function Cells(): nat
    {
      Pow(approxs, |bounds|)
    }
  }

  /** Step of every axis: its width divided by the number of samples. */
  function Steps(bounds: seq<Bound>, n: nat): (steps: seq<real>)
    requires n > 0
    ensures |steps| == |bounds|
  {
    seq(|bounds|, i requires 0 <= i < |bounds| => (bounds[i].hi - bounds[i].lo) / (n as real))
  }

  /** Scale factor: the steps multiplied in from the left, each divided by 3.
      Steps of ordered bounds are not negative, and neither is their scale
      factor. */
  function ScaleOf(steps: seq<real>): (r: real)
    ensures (forall i :: 0 <= i < |steps| ==> steps[i] >= 0.0) ==> r >= 0.0
  {
    if steps == [] then 1.0 else ScaleOf(steps[..|steps| - 1]) * steps[|steps| - 1] / 3.0
  }

  /** Physical point of the grid position `ps`: `lo[i] + ps[i] * steps[i]`. */
  function Coord(g: Grid, ps: seq<nat>): (x: seq<real>)
    requires g.WellFormed() && |ps| == |g.bounds|
    ensures |x| == |ps|
  {
    seq(|ps|, i requires 0 <= i < |ps| => g.bounds[i].lo + (ps[i] as real) * g.steps[i])
  }

  /** `w` copies of `v` added up: the product `w * v` of an integer weight and
      a real value (see `TimesIsProduct`), written so that it stays linear. */
  function Times(w: nat, v: real): (r: real)
    ensures v >= 0.0 ==> r >= 0.0
    ensures v <= 0.0 ==> r <= 0.0
  {
    if w == 0 then 0.0 else Times(w - 1, v) + v
  }

  /** `Times` is the product of the weight and the value. */
  lemma {:induction false} TimesIsProduct(w: nat, v: real)
    ensures Times(w, v) == (w as real) * v
  {
    if w > 0 {
      TimesIsProduct(w - 1, v);
      SuccTimes((w - 1) as real, v);
    }
  }

  /** `(a + 1) * v == a * v + v`. */
  lemma SuccTimes(a: real, v: real)
    ensures (a + 1.0) * v == a * v + v
  {
  }

  /** Weights of the same value add up. */
  lemma {:induction false} TimesAdd(a: nat, b: nat, v: real)
    ensures Times(a, v) + Times(b, v) == Times(a + b, v)
    decreases b
  {
    if b > 0 {
      TimesAdd(a, b - 1, v);
    }
  }

  /** One copy of 1 per unit of weight is the weight itself. */
  lemma {:induction false} TimesOne(w: nat)
    ensures Times(w, 1.0) == w as real
  {
    if w > 0 {
      TimesOne(w - 1);
    }
  }

  /** Weighted evaluation of cell `ip`: its coefficient times the integrand at
      its point.  The coefficient is positive, so the term has the sign of the
      sample. */
  function Term(g: Grid, f: Integrand, ip: nat): (t: real)
    requires g.WellFormed()
    ensures f(Coord(g, Digits(ip, g.approxs, |g.bounds|))) >= 0.0 ==> t >= 0.0
    ensures f(Coord(g, Digits(ip, g.approxs, |g.bounds|))) <= 0.0 ==> t <= 0.0
  {
    var ps := Digits(ip, g.approxs, |g.bounds|);
    Times(Coefficient(ps, g.approxs), f(Coord(g, ps)))
  }

  /** The real product of a cell's coefficient and the integrand at its point
      is that cell's weighted evaluation. */
  lemma TermAsProduct(g: Grid, f: Integrand, ip: nat, c: real, x: seq<real>)
    requires g.WellFormed()
    requires c == Coefficient(Digits(ip, g.approxs, |g.bounds|), g.approxs) as real
    requires x == Coord(g, Digits(ip, g.approxs, |g.bounds|))
    ensures c * f(x) == Term(g, f, ip)
  {
    var w, v := Coefficient(Digits(ip, g.approxs, |g.bounds|), g.approxs), f(x);
    assert Term(g, f, ip) == Times(w, v);
    CastTimes(w, c, v);
  }

  /** A weight cast to a real, times a value, is that many copies of the value. */
  lemma CastTimes(w: nat, c: real, v: real)
    requires c == w as real
    ensures c * v == Times(w, v)
  {
    TimesIsProduct(w, v);
  }

  /** Sum of the weighted evaluations of the cells in `[b, e)`; not negative
      for an integrand that is not negative anywhere. */
  function RangeSum(g: Grid, f: Integrand, b: nat, e: nat): (s: real)
    requires g.WellFormed()
    ensures NonNegative(f) ==> s >= 0.0
    decreases e
  {
    if e <= b then 0.0 else RangeSum(g, f, b, e - 1) + Term(g, f, e - 1)
  }

  /** The estimate: all cells summed, then scaled.  A non-negative integrand
      on a grid with non-negative steps has a non-negative estimate. */
  function Estimate(g: Grid, f: Integrand): (e: real)
    requires g.WellFormed()
    ensures NonNegative(f) && (forall i :: 0 <= i < |g.steps| ==> g.steps[i] >= 0.0) ==> e >= 0.0
  {
    RangeSum(g, f, 0, g.Cells()) * ScaleOf(g.steps)
  }

  /** The estimate is the weighted sum, whatever its value, times the scale factor. */
  lemma EstimateOfSum(g: Grid, f: Integrand, sum: real)
    requires g.WellFormed() && RangeSum(g, f, 0, g.Cells()) == sum
    ensures Estimate(g, f) == sum * ScaleOf(g.steps)
  {
  }

  /** The estimate of the integral of `f` over `bounds` with `n` samples per
      axis; like the integral, not negative for a non-negative integrand over
      ordered bounds. */
  function Integrate(bounds: seq<Bound>, n: nat, f: Integrand): (r: real)
    requires n > 0
    ensures NonNegative(f) && (forall i :: 0 <= i < |bounds| ==> bounds[i].lo <= bounds[i].hi) ==> r >= 0.0
  {
    var steps := Steps(bounds, n);
    assert forall i :: 0 <= i < |bounds| && bounds[i].lo <= bounds[i].hi ==> steps[i] >= 0.0;
    Estimate(Grid(bounds, steps, n), f)
  }

  /** The weighted sum of all the cells times the scale factor of the steps
      is the estimate. */
  lemma EstimateOfScaledSum(g: Grid, f: Integrand, sum: real, scale: real, r: real)
    requires g.WellFormed() && scale == ScaleOf(g.steps)
    requires RangeSum(g, f, 0, g.Cells()) == sum && r == sum * scale
    ensures Estimate(g, f) == r
  {
    EstimateOfSum(g, f, sum);
  }

  /** A grid whose step on each axis is the axis width over `n` is the grid
      `Integrate` estimates over. */
  lemma IntegrateOverGrid(bounds: seq<Bound>, n: nat, f: Integrand, g: Grid)
    requires n > 0 && g.bounds == bounds && g.approxs == n && |g.steps| == |bounds|
    requires forall i :: 0 <= i < |bounds| ==> g.steps[i] == (bounds[i].hi - bounds[i].lo) / (n as real)
    ensures Integrate(bounds, n, f) == Estimate(g, f)
  {
    assert g.steps == Steps(bounds, n);
  }

  // ---------------------------------------------------------------------
  // Reduction over contiguous ranges

  /** Sums over adjacent ranges add up to the sum over their union. */
  lemma {:induction false} RangeSumSplit(g: Grid, f: Integrand, b: nat, m: nat, e: nat)
    requires g.WellFormed() && b <= m <= e
    ensures RangeSum(g, f, b, e) == RangeSum(g, f, b, m) + RangeSum(g, f, m, e)
    decreases e
  {
    if m < e {
      RangeSumSplit(g, f, b, m, e - 1);
    }
  }

  /** `cuts` splits `[cuts[0], cuts[|cuts|-1])` into contiguous ranges. */
  ghost predicate IsPartition(cuts: seq<nat>)
  {
    |cuts| >= 1 && forall i, j :: 0 <= i <= j < |cuts| ==> cuts[i] <= cuts[j]
  }

  /** Partial sums of the ranges `[cuts[j], cuts[j+1])`, combined with `+` in
      range order; not negative for a non-negative integrand. */
  function PartialSums(g: Grid, f: Integrand, cuts: seq<nat>): (s: real)
    requires g.WellFormed()
    ensures NonNegative(f) ==> s >= 0.0
    decreases |cuts|
  {
    if |cuts| < 2 then 0.0
    else PartialSums(g, f, cuts[..|cuts| - 1]) + RangeSum(g, f, cuts[|cuts| - 2], cuts[|cuts| - 1])
  }

  /** However the range is partitioned, combining the partial sums gives the
      sum over the whole range: what a parallel reduction with `+` relies on. */
  lemma {:induction false} PartitionedSum(g: Grid, f: Integrand, cuts: seq<nat>)
    requires g.WellFormed() && IsPartition(cuts)
    ensures PartialSums(g, f, cuts) == RangeSum(g, f, cuts[0], cuts[|cuts| - 1])
    decreases |cuts|
  {
    if |cuts| >= 2 {
      var init := cuts[..|cuts| - 1];
      assert IsPartition(init);
      PartitionedSum(g, f, init);
      assert init[0] == cuts[0] && init[|init| - 1] == cuts[|cuts| - 2];
      RangeSumSplit(g, f, cuts[0], cuts[|cuts| - 2], cuts[|cuts| - 1]);
    }
  }

  // ---------------------------------------------------------------------
  // Where the integrand is sampled

  /** Every sample lies in the domain, and never on the far boundary of an axis
      that is not degenerate: `n` samples spaced `(hi - lo)/n` stop one step
      short of `hi`. */
  lemma CoordInBox(bounds: seq<Bound>, n: nat, ps: seq<nat>, i: nat)
    requires n > 0 && IsPosition(ps, n, |bounds|) && i < |bounds|
    requires bounds[i].lo <= bounds[i].hi
    ensures var x := Coord(Grid(bounds, Steps(bounds, n), n), ps);
      bounds[i].lo <= x[i] <= bounds[i].hi &&
      (bounds[i].lo < bounds[i].hi ==> x[i] < bounds[i].hi)
  {
    var d, p := bounds[i].hi - bounds[i].lo, ps[i] as real;
    var x := Coord(Grid(bounds, Steps(bounds, n), n), ps);
    assert x[i] == bounds[i].lo + p * (d / (n as real));
    SampleOffset(p, d, n as real);
  }

  /** `0 <= p * (d / n) <= d`, and `< d` when `d > 0`, for `0 <= p < n`. */
  lemma SampleOffset(p: real, d: real, n: real)
    requires 0.0 <= p < n && 0.0 <= d
    ensures 0.0 <= p * (d / n) <= d
    ensures 0.0 < d ==> p * (d / n) < d
  {
    assert p * (d / n) == (p / n) * d;
  }

  // ---------------------------------------------------------------------
  // The scale factor

  /** A degenerate axis (zero step) makes the scale factor zero. */
  lemma {:induction false} ScaleOfZeroStep(steps: seq<real>, i: nat)
    requires i < |steps| && steps[i] == 0.0
    ensures ScaleOf(steps) == 0.0
  {
    var init := steps[..|steps| - 1];
    if i < |steps| - 1 {
      assert init[i] == 0.0;
      ScaleOfZeroStep(init, i);
    }
  }

  /** Positive steps make a positive scale factor. */
  lemma {:induction false} ScaleOfPositive(steps: seq<real>)
    requires forall i :: 0 <= i < |steps| ==> steps[i] > 0.0
    ensures ScaleOf(steps) > 0.0
  {
    if steps != [] {
      var init := steps[..|steps| - 1];
      ScaleOfPositive(init);
      PositiveProduct(ScaleOf(init), steps[|steps| - 1]);
    }
  }

  /** `a * b / 3 > 0` for positive `a` and `b`. */
  lemma PositiveProduct(a: real, b: real)
    requires a > 0.0 && b > 0.0
    ensures a * b / 3.0 > 0.0
  {
  }

  /** An axis whose bounds coincide makes the estimate exactly zero, whatever
      the integrand. */
  lemma DegenerateAxisGivesZero(bounds: seq<Bound>, n: nat, f: Integrand, i: nat)
    requires n > 0 && i < |bounds| && bounds[i].lo == bounds[i].hi
    ensures Integrate(bounds, n, f) == 0.0
  {
    var steps := Steps(bounds, n);
    assert steps[i] == 0.0;
    ScaleOfZeroStep(steps, i);
  }

  /** Non-degenerate bounds make a positive scale factor. */
  lemma ProperBoundsGivePositiveScale(bounds: seq<Bound>, n: nat)
    requires n > 0
    requires forall i :: 0 <= i < |bounds| ==> bounds[i].lo < bounds[i].hi
    ensures ScaleOf(Steps(bounds, n)) > 0.0
  {
    var steps := Steps(bounds, n);
    forall i | 0 <= i < |steps| ensures steps[i] > 0.0 {
      assert steps[i] == (bounds[i].hi - bounds[i].lo) / (n as real);
    }
    ScaleOfPositive(steps);
  }
}
