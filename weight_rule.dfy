/**
 * Weight rule of the multidimensional Simpson integrator.
 *
 * On an axis with `n` samples the weight of sample `pos` is 1 on the two
 * boundary samples, 4 on odd interior samples and 2 on even interior samples;
 * the coefficient of a grid cell is the product of its per-axis weights.
 */
module WeightRule {
  import opened GridIndex

  /** Simpson weight of sample `pos` on an axis with `n` samples.  The boundary
      test comes first, so an odd last sample still weighs 1. */
  function AxisWeight(pos: nat, n: nat): (w: nat)
    ensures w == 1 || w == 2 || w == 4
  {
    if pos == 0 || pos == n - 1 then 1
    else if pos % 2 != 0 then 4
    else 2
  }

  /** Coefficient of the cell at position vector `ps`: the product of the
      per-axis weights, axis 0 first; every cell carries a positive weight. */
  function Coefficient(ps: seq<nat>, n: nat): (c: nat)
    ensures c > 0
  {
    if ps == [] then 1 else AxisWeight(ps[0], n) * Coefficient(ps[1..], n)
  }

  /** A cell coefficient lies between 1 and `4^k` on a `k`-dimensional grid. */
  lemma {:induction false} CoefficientBounds(ps: seq<nat>, n: nat)
    ensures 1 <= Coefficient(ps, n) <= Pow(4, |ps|)
  {
    if ps != [] {
      var w, rest, p := AxisWeight(ps[0], n), Coefficient(ps[1..], n), Pow(4, |ps| - 1);
      assert 1 <= rest <= p by { CoefficientBounds(ps[1..], n); }
      MulMono(rest, 1, w);
      MulMono(w, rest, p);
      MulMono(p, w, 4);
      assert Coefficient(ps, n) == w * rest;
      assert Pow(4, |ps|) == 4 * p;
    }
  }

  /** The coefficient of a concatenation of positions is the product of the
      coefficients of the parts. */
  lemma {:induction false} CoefficientAppend(a: seq<nat>, b: seq<nat>, n: nat)
    ensures Coefficient(a + b, n) == Coefficient(a, n) * Coefficient(b, n)
  {
    if a == [] {
      assert a + b == b;
    } else {
      var w, ca, cb := AxisWeight(a[0], n), Coefficient(a[1..], n), Coefficient(b, n);
      assert a + b == [a[0]] + (a[1..] + b);
      assert Coefficient(a[1..] + b, n) == ca * cb by { CoefficientAppend(a[1..], b, n); }
      assert Coefficient(a + b, n) == w * (ca * cb) by { CoefficientCons(a[0], a[1..] + b, n); }
      assert Coefficient(a, n) == w * ca;
      MulAssoc(w, ca, cb);
    }
  }

  /** Prepending an axis multiplies the coefficient by that axis' weight. */
  lemma CoefficientCons(pos: nat, ps: seq<nat>, n: nat)
    ensures Coefficient([pos] + ps, n) == AxisWeight(pos, n) * Coefficient(ps, n)
  {
    var qs := [pos] + ps;
    assert qs[0] == pos && qs[1..] == ps;
  }

  /** Appending an axis multiplies the coefficient by that axis' weight: the
      step of the running product over the axes. */
  lemma CoefficientSnoc(ps: seq<nat>, pos: nat, n: nat)
    ensures Coefficient(ps + [pos], n) == Coefficient(ps, n) * AxisWeight(pos, n)
  {
    CoefficientAppend(ps, [pos], n);
    CoefficientOneAxis(pos, n);
  }

  /** The all-zero position (the grid origin) has coefficient 1. */
  lemma {:induction false} CoefficientOfOrigin(ps: seq<nat>, n: nat)
    requires forall i :: 0 <= i < |ps| ==> ps[i] == 0
    ensures Coefficient(ps, n) == 1
  {
    if ps != [] {
      CoefficientOfOrigin(ps[1..], n);
    }
  }

  /** With one axis the coefficient is that axis' weight: no cross-axis product. */
  lemma CoefficientOneAxis(pos: nat, n: nat)
    ensures Coefficient([pos], n) == AxisWeight(pos, n)
  {
    assert [pos][1..] == [];
  }

  /** With an odd number of samples the weights read the same from both ends,
      1 4 2 4 ... 2 4 1. */
  lemma AxisWeightSymmetric(pos: nat, n: nat)
    requires n % 2 == 1 && pos < n
    ensures AxisWeight(pos, n) == AxisWeight(n - 1 - pos, n)
  {
    MirrorParity(pos, n);
  }

  /** With an odd number of samples, a position and its mirror image have the
      same parity. */
  lemma MirrorParity(pos: nat, n: nat)
    requires n % 2 == 1 && pos < n
    ensures (n - 1 - pos) % 2 == pos % 2
  {
    var h, q, r := (n - 1) / 2, pos / 2, pos % 2;
    assert n - 1 == 2 * h && pos == 2 * q + r;
    if r == 0 {
      assert n - 1 - pos == 2 * (h - q);
    } else {
      assert n - 1 - pos == 2 * (h - q - 1) + 1;
    }
  }

  /** Sum of the weights of samples `0 .. m-1` on an axis with `n` samples. */
  function WeightPrefixSum(m: nat, n: nat): nat
  {
    if m == 0 then 0 else WeightPrefixSum(m - 1, n) + AxisWeight(m - 1, n)
  }

  /** Before the last sample the weights run 1, 4, 2, 4, 2, ..., so the first
      `m` of them sum to `3m - 2` for odd `m` and `3m - 1` for even `m`. */
  lemma {:induction false} WeightPrefixSumInterior(m: nat, n: nat)
    requires 1 <= m < n
    ensures WeightPrefixSum(m, n) == if m % 2 == 1 then 3 * m - 2 else 3 * m - 1
  {
    if m > 1 {
      WeightPrefixSumInterior(m - 1, n);
      assert WeightPrefixSum(m, n) == WeightPrefixSum(m - 1, n) + AxisWeight(m - 1, n);
    }
  }

  /** Sum of the weights along one whole axis with `n` samples: `3(n-1)` for
      odd `n`, `3n - 4` for even `n`, and 1 for a single sample. */
  function AxisWeightTotal(n: nat): nat
  {
    if n <= 1 then n else if n % 2 == 1 then 3 * (n - 1) else 3 * n - 4
  }

  /** The weights of one axis add up to `AxisWeightTotal`. */
  lemma WeightSumClosedForm(n: nat)
    ensures WeightPrefixSum(n, n) == AxisWeightTotal(n)
  {
    if n > 1 {
      WeightPrefixSumInterior(n - 1, n);
      assert WeightPrefixSum(n, n) == WeightPrefixSum(n - 1, n) + 1;
    } else if n == 1 {
      assert WeightPrefixSum(1, 1) == WeightPrefixSum(0, 1) + AxisWeight(0, 1);
    }
  }

  /** Sum of the coefficients of the cells with linear indices in `[b, e)` of a
      `k`-dimensional grid with `n` samples per axis. */
  function CellWeightSum(n: nat, k: nat, b: nat, e: nat): nat
    requires n > 0
    decreases e
  {
    if e <= b then 0 else CellWeightSum(n, k, b, e - 1) + Coefficient(Digits(e - 1, n, k), n)
  }

  /** Coefficient sums over adjacent index ranges add up. */
  lemma {:induction false} CellWeightSumSplit(n: nat, k: nat, b: nat, m: nat, e: nat)
    requires n > 0 && b <= m <= e
    ensures CellWeightSum(n, k, b, e) == CellWeightSum(n, k, b, m) + CellWeightSum(n, k, m, e)
    decreases e
  {
    if m < e {
      CellWeightSumSplit(n, k, b, m, e - 1);
    }
  }

  /** The cells `n*q .. n*q + r - 1` of a `(k+1)`-dimensional grid share the
      position `Digits(q)` on axes `1..k` and run through samples `0..r-1` on
      axis 0. */
  lemma {:induction false} CellWeightSumBlock(n: nat, k: nat, q: nat, r: nat)
    requires 0 < n && r <= n
    ensures CellWeightSum(n, k + 1, MulNat(n, q), MulNat(n, q) + r)
         == MulNat(Coefficient(Digits(q, n, k), n), WeightPrefixSum(r, n))
  {
    if r > 0 {
      var base: nat := MulNat(n, q);
      var tail := Digits(q, n, k);
      var c, w, s := Coefficient(tail, n), AxisWeight(r - 1, n), WeightPrefixSum(r - 1, n);
      var prev := CellWeightSum(n, k + 1, base, base + r - 1);
      var last := Coefficient(Digits(base + r - 1, n, k + 1), n);
      assert prev == MulNat(c, s) by { CellWeightSumBlock(n, k, q, r - 1); }
      assert last == MulNat(w, c) by {
        DigitsOfBlock(q, r - 1, n, k);
        CoefficientCons(r - 1, tail, n);
      }
      assert CellWeightSum(n, k + 1, base, base + r) == prev + last;
      FactorStep(prev + last, prev, last, c, s, w);
    }
  }

  /** The first `n*m` cells of a `(k+1)`-dimensional grid weigh the axis weight
      sum times the first `m` cells of the `k`-dimensional grid. */
  lemma {:induction false} CellWeightSumBlocks(n: nat, k: nat, m: nat)
    requires n > 0
    ensures CellWeightSum(n, k + 1, 0, n * m) == WeightPrefixSum(n, n) * CellWeightSum(n, k, 0, m)
  {
    if m == 0 {
      assert n * m == 0;
    } else {
      CellWeightSumBlocks(n, k, m - 1);
      CellWeightSumBlocksStep(n, k, m - 1);
    }
  }

  /** One more block of `n` cells adds one more `k`-dimensional cell. */
  lemma CellWeightSumBlocksStep(n: nat, k: nat, m: nat)
    requires n > 0
    requires CellWeightSum(n, k + 1, 0, n * m) == WeightPrefixSum(n, n) * CellWeightSum(n, k, 0, m)
    ensures CellWeightSum(n, k + 1, 0, n * (m + 1)) == WeightPrefixSum(n, n) * CellWeightSum(n, k, 0, m + 1)
  {
    var ws := WeightPrefixSum(n, n);
    var s, c := CellWeightSum(n, k, 0, m), Coefficient(Digits(m, n, k), n);
    var base: nat := MulNat(n, m);
    var e: nat := MulNat(n, m + 1);
    assert e == base + n by { MulSucc(n, m); }
    var whole, head, block := CellWeightSum(n, k + 1, 0, e), CellWeightSum(n, k + 1, 0, base),
      CellWeightSum(n, k + 1, base, e);
    assert whole == head + block by { CellWeightSumSplit(n, k + 1, 0, base, e); }
    assert block == MulNat(c, ws) by { CellWeightSumBlock(n, k, m, n); }
    assert CellWeightSum(n, k, 0, m + 1) == s + c;
    FactorStep(whole, head, block, ws, s, c);
  }

  /** The arithmetic of one block step: `ws*s + c*ws == ws*(s + c)`. */
  lemma FactorStep(whole: int, head: int, block: int, ws: int, s: int, c: int)
    requires whole == head + block && head == ws * s && block == c * ws
    ensures whole == ws * (s + c)
  {
    MulDistrib(ws, s, c);
  }

  /** Tensor-product structure of the weights: the coefficients of all `n^k`
      cells sum to the `k`-th power of one axis' weight sum. */
  lemma {:induction false} CellWeightSumTotal(n: nat, k: nat)
    requires n > 0
    ensures CellWeightSum(n, k, 0, Pow(n, k)) == Pow(WeightPrefixSum(n, n), k)
  {
    if k == 0 {
      assert CellWeightSum(n, 0, 0, 1) == Coefficient(Digits(0, n, 0), n);
    } else {
      CellWeightSumTotal(n, k - 1);
      CellWeightSumBlocks(n, k - 1, Pow(n, k - 1));
    }
  }
}
