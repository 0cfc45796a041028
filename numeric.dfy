/** The small part of numpy and of Python's built-ins the analysis code uses, over `real`:
    `sum`, `np.mean`, population variance (`np.std` squared, ddof = 0), `max`, `np.diff`,
    multiplication of an array by a scalar, boolean-mask filtering, and an exact square root. */
module Numeric {

  /** `sum(s)`, accumulated from the front. */
  function Sum(s: seq<real>): real
  {
    if s == [] then 0.0 else s[0] + Sum(s[1..])
  }

  /** `np.mean(s)`: defined only for a non-empty array (numpy gives NaN otherwise). */
  function Mean(s: seq<real>): (m: real)
    requires |s| > 0
    ensures Product(m, |s| as real) == Sum(s)
  {
    DivideThenMultiply(Sum(s), |s| as real);
    Sum(s) / |s| as real
  }

  /** `x ** 2`. Kept as a function of its own so that facts about a square are used as they
      are stated rather than re-derived from the product. */
  function Square(x: real): real
  {
    x * x
  }

  /** The product of two numbers, as a function of its own so that products of equal factors
      are recognised as equal without arithmetic. */
  function Product(a: real, b: real): real
  {
    a * b
  }

  lemma ProductOfPositives(a: real, b: real)
    requires a > 0.0 && b > 0.0
    ensures Product(a, b) > 0.0
  {
  }

  lemma SquareNonNegative(x: real)
    ensures Square(x) >= 0.0
  {
    if x < 0.0 {
      assert x * x == (-x) * (-x);
    }
  }

  /** A square is positive exactly when its root is not zero. */
  lemma SquarePositive(x: real)
    requires x != 0.0
    ensures Square(x) > 0.0
  {
    if x > 0.0 {
      ProductOfPositives(x, x);
    } else {
      ProductOfPositives(-x, -x);
      assert Product(-x, -x) == x * x;
    }
  }

  /** Multiplication distributes over addition. */
  lemma ProductDistributes(a: real, b: real, c: real)
    ensures Product(a + b, c) == Product(a, c) + Product(b, c)
  {
  }

  /** `a * c == b` gives `a ** 2 * c ** 2 == b ** 2`. */
  lemma SquareOfProduct(a: real, c: real, b: real)
    requires Product(a, c) == b
    ensures Product(Square(a), Square(c)) == Square(b)
  {
    calc {
      Square(a) * Square(c);
      (a * a) * (c * c);
      (a * c) * (a * c);
    }
  }

  /** The sum of squared deviations of `s` from `m`. */
  function SquaredDeviations(s: seq<real>, m: real): (r: real)
    ensures r >= 0.0
  {
    if s == [] then 0.0
    else
      SquareNonNegative(s[0] - m);
      Square(s[0] - m) + SquaredDeviations(s[1..], m)
  }

  /** The squared deviations vanish exactly when every element equals `m`. */
  lemma {:induction false} SquaredDeviationsZero(s: seq<real>, m: real)
    ensures SquaredDeviations(s, m) == 0.0 <==> forall i :: 0 <= i < |s| ==> s[i] == m
  {
    if s != [] {
      SquaredDeviationsZero(s[1..], m);
      if s[0] != m {
        SquarePositive(s[0] - m);
      }
      assert forall i :: 1 <= i < |s| ==> s[i] == s[1..][i - 1];
    }
  }

  /** The population variance (`np.std(s) ** 2`, ddof = 0). */
  function Variance(s: seq<real>): (r: real)
    requires |s| > 0
    ensures r >= 0.0
  {
    SquaredDeviations(s, Mean(s)) / |s| as real
  }

  /** The variance is zero exactly for a constant array. */
  lemma VarianceZeroIffConstant(s: seq<real>)
    requires |s| > 0
    ensures Variance(s) == 0.0 <==> forall i, j :: 0 <= i < |s| && 0 <= j < |s| ==> s[i] == s[j]
  {
    SquaredDeviationsZero(s, Mean(s));
    if forall i, j :: 0 <= i < |s| && 0 <= j < |s| ==> s[i] == s[j] {
      MeanConstant(s, s[0]);
    }
  }

  /** `max(s)`: an element of `s` that no element exceeds. */
  function Max(s: seq<real>): (m: real)
    requires |s| > 0
    ensures forall i :: 0 <= i < |s| ==> s[i] <= m
    ensures exists i :: 0 <= i < |s| && s[i] == m
  {
    if |s| == 1 then s[0]
    else
      var rest := Max(s[1..]);
      assert forall i :: 1 <= i < |s| ==> s[i] == s[1..][i - 1];
      if s[0] >= rest then s[0] else rest
  }

  /** `np.diff(a)`: the forward differences; empty for an array of fewer than two samples. */
  function Diff(a: seq<real>): (d: seq<real>)
    ensures |d| == if |a| == 0 then 0 else |a| - 1
    ensures forall i {:trigger d[i]} :: 0 <= i < |d| ==> d[i] == a[i + 1] - a[i]
  {
    if |a| < 2 then [] else [a[1] - a[0]] + Diff(a[1..])
  }

  /** `a * k` for a numpy array `a` and a scalar `k`. */
  function Scale(a: seq<real>, k: real): (r: seq<real>)
    ensures |r| == |a|
    ensures forall i :: 0 <= i < |a| ==> r[i] == Product(a[i], k)
  {
    seq(|a|, i requires 0 <= i < |a| => a[i] * k)
  }

  /** `a[a > 0]`: the positive elements of `a`, in order. */
  function Positives(a: seq<real>): (r: seq<real>)
    ensures |r| <= |a|
    ensures forall i :: 0 <= i < |r| ==> r[i] > 0.0
    ensures forall x :: x in r <==> x in a && x > 0.0
  {
    if a == [] then []
    else if a[0] > 0.0 then [a[0]] + Positives(a[1..])
    else Positives(a[1..])
  }

  /** The filter keeps order: filtering a concatenation filters each part. */
  lemma {:induction false} PositivesAppend(a: seq<real>, b: seq<real>)
    ensures Positives(a + b) == Positives(a) + Positives(b)
  {
    if a != [] {
      assert (a + b)[0] == a[0];
      assert (a + b)[1..] == a[1..] + b;
      PositivesAppend(a[1..], b);
    } else {
      assert a + b == b;
    }
  }

  /** `sqrt` is an exact non-negative square root on the non-negative reals, and it is zero
      exactly at zero. numpy's rounding is not modelled: the model is given any function with
      these properties (every exact root has them). */
  ghost predicate IsSquareRoot(sqrt: real -> real)
  {
    forall x :: 0.0 <= x ==> 0.0 <= sqrt(x) && sqrt(x) * sqrt(x) == x && (sqrt(x) == 0.0 <==> x == 0.0)
  }

  /** The squared deviations from the mean are the count times the variance. */
  lemma VarianceIsMeanSquaredDeviation(s: seq<real>)
    requires |s| > 0
    ensures SquaredDeviations(s, Mean(s)) == Product(Variance(s), |s| as real)
  {
    DivideThenMultiply(SquaredDeviations(s, Mean(s)), |s| as real);
  }

  /** `(a / n) * n == a` for a non-zero divisor. */
  lemma DivideThenMultiply(a: real, n: real)
    requires n != 0.0
    ensures Product(a / n, n) == a
  {
  }

  /** A non-empty array of positive numbers has a positive sum. */
  lemma {:induction false} SumOfPositives(s: seq<real>)
    requires |s| > 0 && forall i :: 0 <= i < |s| ==> s[i] > 0.0
    ensures Sum(s) > 0.0
  {
    if |s| > 1 {
      SumOfPositives(s[1..]);
    }
  }

  /** A positive sum has a positive mean. */
  lemma MeanOfPositiveSum(s: seq<real>)
    requires |s| > 0 && Sum(s) > 0.0
    ensures Mean(s) > 0.0
  {
    OrderUnderPositiveScale(0.0, Mean(s), |s| as real);
  }

  /** The root of zero is zero. */
  lemma RootOfZero(sqrt: real -> real)
    requires IsSquareRoot(sqrt)
    ensures sqrt(0.0) == 0.0
  {
  }

  /** The sum of `n` copies of `c` is `n * c`. */
  lemma {:induction false} SumConstant(s: seq<real>, c: real)
    requires forall i :: 0 <= i < |s| ==> s[i] == c
    ensures Sum(s) == |s| as real * c
  {
    if s != [] {
      SumConstant(s[1..], c);
    }
  }

  /** The mean of a constant array is that constant. */
  lemma MeanConstant(s: seq<real>, c: real)
    requires |s| > 0
    requires forall i :: 0 <= i < |s| ==> s[i] == c
    ensures Mean(s) == c
  {
    SumConstant(s, c);
  }

  /** Every positive difference of a uniformly spaced clock with step `d > 0` is `d`,
      and there are `|t| - 1` of them. */
  lemma {:induction false} PositivesOfConstant(a: seq<real>, d: real)
    requires d > 0.0
    requires forall i :: 0 <= i < |a| ==> a[i] == d
    ensures Positives(a) == a
  {
    if a != [] {
      PositivesOfConstant(a[1..], d);
    }
  }

  /** `p * w == w * n` with `w > 0` gives `p / n == 1`. */
  lemma UnitRatio(p: real, w: real, n: real)
    requires n > 0.0 && w > 0.0 && Product(p, w) == Product(w, n)
    ensures p / n == 1.0
  {
    assert Product(w, n) == Product(n, w);
    CancelPositive(p, n, w);
  }

  /** A positive factor cancels. */
  lemma CancelPositive(a: real, b: real, c: real)
    requires c > 0.0 && Product(a, c) == Product(b, c)
    ensures a == b
  {
    OrderUnderPositiveScale(a, b, c);
    OrderUnderPositiveScale(b, a, c);
  }

  /** Multiplying by a positive number keeps strict order, in both directions. */
  lemma OrderUnderPositiveScale(a: real, b: real, c: real)
    requires c > 0.0
    ensures a < b <==> Product(a, c) < Product(b, c)
  {
    if a < b {
      assert (b - a) * c > 0.0;
    }
    if b <= a {
      assert (a - b) * c >= 0.0;
    }
  }
}
