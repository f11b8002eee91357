/**
 * Grid indexer of the multidimensional Simpson integrator.
 *
 * A grid of `n` sample points on each of `k` axes has `n^k` cells.  A cell is
 * addressed by a linear index `ip` in `[0, n^k)`; its per-axis position vector
 * is the base-`n` (mixed-radix) decomposition of `ip`, axis 0 varying fastest.
 */
module GridIndex {

  /** `n` raised to the `k`-th power, as an exact integer. */
  function Pow(n: nat, k: nat): (r: nat)
    ensures n > 0 ==> r > 0
    ensures n == 1 ==> r == 1
  {
    if k == 0 then 1 else n * Pow(n, k - 1)
  }

  /** The first `k` base-`n` digits of `ip`, least significant first. */
  function Digits(ip: nat, n: nat, k: nat): (ds: seq<nat>)
    requires n > 0
    ensures |ds| == k
    ensures forall i :: 0 <= i < k ==> ds[i] < n
    decreases k
  {
    if k == 0 then []
    else
      var digit := ip % n;
      var rest := Digits(ip / n, n, k - 1);
      assert digit < n;
      [digit] + rest
  }

  /** Past the first `i` digits of a decoding come the digits of what is left
      after `i` divisions: peeling one more digit takes the remainder and
      divides again. */
  lemma DigitsDrop(ds: seq<nat>, i: nat, p: nat, n: nat, k: nat)
    requires n > 0 && i < k == |ds| && ds[i..] == Digits(p, n, k - i)
    ensures ds[i] == p % n && ds[i + 1..] == Digits(p / n, n, k - i - 1)
  {
    assert ds[i + 1..] == ds[i..][1..];
  }

  /** The number whose base-`n` digits, least significant first, are `ds`:
      `ds[0] + ds[1] * n + ds[2] * n^2 + ...`. */
  function Value(ds: seq<nat>, n: nat): nat
  {
    if ds == [] then 0 else ds[0] + n * Value(ds[1..], n)
  }

  /** A position vector of the `k`-dimensional grid with `n` points per axis. */
  ghost predicate IsPosition(ds: seq<nat>, n: nat, k: nat)
  {
    |ds| == k && forall i :: 0 <= i < |ds| ==> ds[i] < n
  }

  /** Multiplication by a natural number is monotone. */
  lemma MulMono(n: nat, a: nat, b: nat)
    requires a <= b
    ensures n * a <= n * b
  {
  }

  /** Multiplication distributes over addition. */
  lemma MulDistrib(a: int, b: int, c: int)
    ensures a * b + a * c == a * (b + c)
  {
  }

  /** The product of two natural numbers, as a natural number. */
  function MulNat(a: nat, b: nat): nat
  {
    a * b
  }

  /** `a * (b + 1) == a * b + a`. */
  lemma MulSucc(a: int, b: int)
    ensures a * (b + 1) == a * b + a
  {
  }

  /** Multiplication is associative. */
  lemma MulAssoc(a: int, b: int, c: int)
    ensures a * (b * c) == (a * b) * c
  {
  }

  /** A digit plus `n` times a number below `p` stays below `n * p`. */
  lemma DigitBound(d: nat, v: nat, n: nat, p: nat)
    requires d < n && v < p
    ensures d + n * v < n * p
  {
    MulMono(n, v, p - 1);
    MulSucc(n, p - 1);
  }

  /** Euclidean division by `n` is determined by quotient and remainder. */
  lemma DivModOf(q: nat, r: nat, n: nat)
    requires r < n
    ensures (r + n * q) / n == q && (r + n * q) % n == r
  {
    var a := r + n * q;
    var q', r' := a / n, a % n;
    assert a == n * q' + r';
    if q' > q {
      MulMono(n, q + 1, q');
      assert false;
    } else if q' < q {
      MulMono(n, q' + 1, q);
      assert false;
    }
    assert q' == q;
  }

  /** A linear index below `n^(k+1)` has a quotient by `n` below `n^k`. */
  lemma QuotientBelowPow(ip: nat, n: nat, k: nat)
    requires n > 0 && ip < Pow(n, k + 1)
    ensures ip / n < Pow(n, k)
  {
    var q, r := ip / n, ip % n;
    assert ip == n * q + r;
    if q >= Pow(n, k) {
      MulMono(n, Pow(n, k), q);
      assert false;
    }
  }

  /** Decoding a cell index and re-encoding its position gives the index back:
      `Σ Digits(ip)[i] * n^i == ip` for every `ip < n^k`. */
  lemma {:induction false} ValueOfDigits(ip: nat, n: nat, k: nat)
    requires n > 0 && ip < Pow(n, k)
    ensures Value(Digits(ip, n, k), n) == ip
    decreases k
  {
    if k > 0 {
      QuotientBelowPow(ip, n, k - 1);
      ValueOfDigits(ip / n, n, k - 1);
      ValueStep(ip, n, k);
      DivSplit(ip, n, Value(Digits(ip / n, n, k - 1), n));
    }
  }

  /** One digit of the encoding: the first digit plus `n` times the value of
      the digits of the quotient. */
  lemma ValueStep(ip: nat, n: nat, k: nat)
    requires n > 0 && k > 0
    ensures Value(Digits(ip, n, k), n) == ip % n + n * Value(Digits(ip / n, n, k - 1), n)
  {
    var ds := Digits(ip, n, k);
    assert ds[0] == ip % n && ds[1..] == Digits(ip / n, n, k - 1);
  }

  /** Remainder plus `n` times quotient is the dividend. */
  lemma DivSplit(ip: nat, n: nat, v: nat)
    requires n > 0 && v == ip / n
    ensures ip % n + n * v == ip
  {
  }

  /** Every position vector encodes to an index inside the grid. */
  lemma {:induction false} ValueBelowPow(ds: seq<nat>, n: nat)
    requires forall i :: 0 <= i < |ds| ==> ds[i] < n
    ensures Value(ds, n) < Pow(n, |ds|)
  {
    if ds != [] {
      var tail := ds[1..];
      var v, p := Value(tail, n), Pow(n, |tail|);
      assert v < p by { ValueBelowPow(tail, n); }
      assert Pow(n, |ds|) == n * p;
      DigitBound(ds[0], v, n, p);
    }
  }

  /** Encoding a position vector and decoding the index gives the vector back. */
  lemma {:induction false} DigitsOfValue(ds: seq<nat>, n: nat)
    requires n > 0
    requires forall i :: 0 <= i < |ds| ==> ds[i] < n
    ensures Digits(Value(ds, n), n, |ds|) == ds
  {
    if ds != [] {
      var tail := ds[1..];
      DigitsOfValue(tail, n);
      DivModOf(Value(tail, n), ds[0], n);
      assert ds == [ds[0]] + tail;
    }
  }

  /** Distinct cell indices decode to distinct position vectors, so a pass over
      `[0, n^k)` visits every grid point at most once. */
  lemma DigitsInjective(ip1: nat, ip2: nat, n: nat, k: nat)
    requires n > 0 && ip1 < Pow(n, k) && ip2 < Pow(n, k)
    requires Digits(ip1, n, k) == Digits(ip2, n, k)
    ensures ip1 == ip2
  {
    ValueOfDigits(ip1, n, k);
    ValueOfDigits(ip2, n, k);
  }

  /** Every position vector is the decoding of exactly one index in `[0, n^k)`,
      so a pass over `[0, n^k)` visits every grid point exactly once. */
  lemma DigitsSurjective(ds: seq<nat>, n: nat, k: nat)
    requires n > 0 && IsPosition(ds, n, k)
    ensures Value(ds, n) < Pow(n, k) && Digits(Value(ds, n), n, k) == ds
  {
    ValueBelowPow(ds, n);
    DigitsOfValue(ds, n);
  }

  /** Decoding `q * n + r` puts `r` on axis 0 and the decoding of `q` on the
      remaining axes: the shape the tensor-product sums rely on. */
  lemma DigitsOfBlock(q: nat, r: nat, n: nat, k: nat)
    requires r < n
    ensures Digits(n * q + r, n, k + 1) == [r] + Digits(q, n, k)
  {
    DivModOf(q, r, n);
    assert n * q + r == r + n * q;
  }
}
