/** Real arithmetic shared by the profile extractor and the fitting engine:
    the NumPy transcendental functions as an explicit parameter, and the
    reductions (sum, mean, population variance, minimum, maximum) the source
    applies to arrays. */
module Numerics {

  /** The transcendental functions the analysis takes from NumPy: `np.sqrt`,
      `np.log` and the power operator `**`. They are not defined here; every
      fact about them the model relies on is collected in `Lawful`. */
  datatype Maths = Maths(sqrt: real -> real, ln: real -> real, pow: (real, real) -> real)

  /** `m` computes real mathematics: `sqrt` is the non-negative square root on
      the non-negative reals, the logarithm of 1 is 0, 1 to any power is 1 and
      the first power of a number is the number itself. */
  ghost predicate Lawful(m: Maths)
  {
    && (forall x :: 0.0 <= x ==> 0.0 <= m.sqrt(x) && m.sqrt(x) * m.sqrt(x) == x)
    && m.ln(1.0) == 0.0
    && (forall e :: m.pow(1.0, e) == 1.0)
    && (forall x :: m.pow(x, 1.0) == x)
  }

  function Abs(x: real): real
  {
    if x < 0.0 then -x else x
  }

  /** The identity function. */
  function Same(x: real): real
  {
    x
  }

  /** `x ** 2`, which is never negative. The product is written through
      `Same` only so that this non-negativity is kept in proofs. */
  function Square(x: real): (r: real)
    ensures 0.0 <= r
  {
    x * Same(x)
  }

  lemma SquareIsProduct(x: real)
    ensures Square(x) == x * x
  {
  }

  lemma MulPositive(a: real, b: real)
    requires 0.0 < a && 0.0 < b
    ensures 0.0 < a * b
  {
  }

  lemma ProductAtLeast(a: real, b: real)
    requires 1.0 <= a && 0.0 <= b
    ensures b <= a * b
  {
    if 1.0 < a && 0.0 < b {
      MulPositive(a - 1.0, b);
    }
  }

  lemma SquareOfPositive(d: real)
    requires 0.0 < d
    ensures 0.0 < Square(d)
  {
    MulPositive(d, Same(d));
  }

  /** The square of a non-zero number is positive. */
  lemma SquarePositive(d: real)
    requires d != 0.0
    ensures 0.0 < Square(d)
  {
    if 0.0 < d {
      SquareOfPositive(d);
    } else {
      SquareOfPositive(-d);
      SquareIsProduct(d);
      SquareIsProduct(-d);
    }
  }

  lemma SquareStrictlyMonotone(a: real, b: real)
    requires 0.0 <= a < b
    ensures Square(a) < Square(b)
  {
    SquareIsProduct(a);
    SquareIsProduct(b);
    if a == 0.0 {
      SquarePositive(b);
    } else {
      assert Square(b) - Square(a) == (b - a) * (b + a);
      MulPositive(b - a, b + a);
    }
  }

  /** On the non-negative reals, squaring preserves the order in both directions. */
  lemma SquareLeIffLe(a: real, b: real)
    requires 0.0 <= a && 0.0 <= b
    ensures Square(a) <= Square(b) <==> a <= b
  {
    if a < b {
      SquareStrictlyMonotone(a, b);
    } else if b < a {
      SquareStrictlyMonotone(b, a);
    }
  }

  /** The square root of a square is its non-negative base. */
  lemma SqrtOfSquare(m: Maths, y: real)
    requires Lawful(m) && 0.0 <= y
    ensures m.sqrt(Square(y)) == y
  {
    var s := m.sqrt(Square(y));
    SquareIsProduct(s);
    assert 0.0 <= s && Square(s) == Square(y);
    SquareLeIffLe(s, y);
    SquareLeIffLe(y, s);
  }

  lemma SqrtZero(m: Maths)
    requires Lawful(m)
    ensures m.sqrt(0.0) == 0.0
  {
    SqrtOfSquare(m, 0.0);
  }

  lemma SqrtOne(m: Maths)
    ensures Lawful(m) ==> m.sqrt(1.0) == 1.0
  {
    if Lawful(m) {
      SqrtOfSquare(m, 1.0);
    }
  }

  /** The square root is increasing on the non-negative reals, in both directions. */
  lemma SqrtLeIffLe(m: Maths, x: real, y: real)
    requires Lawful(m) && 0.0 <= x && 0.0 <= y
    ensures m.sqrt(x) <= m.sqrt(y) <==> x <= y
  {
    var a, b := m.sqrt(x), m.sqrt(y);
    SquareIsProduct(a);
    SquareIsProduct(b);
    assert 0.0 <= a && Square(a) == x;
    assert 0.0 <= b && Square(b) == y;
    SquareLeIffLe(a, b);
  }

  /** The square root of a positive number is positive. */
  lemma SqrtPositive(m: Maths, v: real)
    requires Lawful(m) && 0.0 < v
    ensures 0.0 < m.sqrt(v)
  {
    SqrtZero(m);
    SqrtLeIffLe(m, v, 0.0);
  }

  /** A deviation whose square is at most `v` is at most the square root of `v`. */
  lemma AbsWithinSqrt(m: Maths, d: real, v: real)
    requires Lawful(m) && Square(d) <= v
    ensures Abs(d) <= m.sqrt(v)
  {
    var s := m.sqrt(v);
    SquareIsProduct(d);
    SquareIsProduct(Abs(d));
    SquareIsProduct(s);
    assert Square(d) == Square(Abs(d));
    assert 0.0 <= s && Square(s) == v;
    SquareLeIffLe(Abs(d), s);
  }

  /** Dividing bounds on `x` by a positive `n`. */
  lemma DivideWithin(x: real, n: real, lo: real, hi: real)
    requires 0.0 < n && n * lo <= x <= n * hi
    ensures lo <= x / n <= hi
  {
    assert (x / n - lo) * n == x - n * lo;
    assert (hi - x / n) * n == n * hi - x;
  }

  /** `np.sum` of a one-dimensional array. */
  function Sum(s: seq<real>): real
  {
    if s == [] then 0.0 else s[0] + Sum(s[1..])
  }

  /** `np.mean`. On an empty array NumPy yields NaN; every use of the mean
      below is then summed over no element, so the value 0 stands in for it. */
  function Mean(s: seq<real>): real
  {
    if s == [] then 0.0 else Sum(s) / (|s| as real)
  }

  /** The sum of the squared deviations of `s` from `c`. */
  function SumSqDev(s: seq<real>, c: real): (r: real)
    ensures 0.0 <= r
  {
    if s == [] then 0.0 else Square(s[0] - c) + SumSqDev(s[1..], c)
  }

  /** `np.var`: the population variance (divided by the number of elements).
      On an empty array NumPy yields NaN, which fails every `> 0` test the
      source applies to it, as 0 does. */
  function Variance(s: seq<real>): (v: real)
    ensures 0.0 <= v
  {
    if s == [] then 0.0 else SumSqDev(s, Mean(s)) / (|s| as real)
  }

  function Max(s: seq<real>): (r: real)
    requires s != []
    ensures r in s
    ensures forall i :: 0 <= i < |s| ==> s[i] <= r
  {
    if |s| == 1 then s[0]
    else
      var rest := Max(s[1..]);
      assert forall i :: 1 <= i < |s| ==> s[i] == s[1..][i - 1];
      if s[0] < rest then rest else s[0]
  }

  function Min(s: seq<real>): (r: real)
    requires s != []
    ensures r in s
    ensures forall i :: 0 <= i < |s| ==> r <= s[i]
  {
    if |s| == 1 then s[0]
    else
      var rest := Min(s[1..]);
      assert forall i :: 1 <= i < |s| ==> s[i] == s[1..][i - 1];
      if rest < s[0] then rest else s[0]
  }

  /** A sum of `n` terms between `lo` and `hi` lies between `n * lo` and `n * hi`. */
  lemma {:induction false} SumWithin(s: seq<real>, lo: real, hi: real)
    requires forall v :: v in s ==> lo <= v <= hi
    ensures (|s| as real) * lo <= Sum(s) <= (|s| as real) * hi
  {
    if s != [] {
      assert s[0] in s;
      assert forall v :: v in s[1..] ==> v in s;
      SumWithin(s[1..], lo, hi);
      assert (|s| as real) * lo == (|s[1..]| as real) * lo + lo;
      assert (|s| as real) * hi == (|s[1..]| as real) * hi + hi;
    }
  }

  /** A mean lies between any bounds of its (non-empty) data. */
  lemma MeanWithin(s: seq<real>, lo: real, hi: real)
    requires s != []
    requires forall v :: v in s ==> lo <= v <= hi
    ensures lo <= Mean(s) <= hi
  {
    SumWithin(s, lo, hi);
    DivideWithin(Sum(s), |s| as real, lo, hi);
  }

  lemma {:induction false} SumOfConstant(s: seq<real>, c: real)
    requires forall i :: 0 <= i < |s| ==> s[i] == c
    ensures Sum(s) == (|s| as real) * c
  {
    if s != [] {
      SumOfConstant(s[1..], c);
    }
  }

  /** All elements of `s` are equal. */
  predicate Uniform(s: seq<real>)
  {
    forall i :: 0 <= i < |s| ==> s[i] == s[0]
  }

  /** A sum of non-negative terms is non-negative. */
  lemma {:induction false} SumNonNegative(s: seq<real>)
    requires forall i :: 0 <= i < |s| ==> 0.0 <= s[i]
    ensures 0.0 <= Sum(s)
  {
    if s != [] {
      SumNonNegative(s[1..]);
    }
  }

  /** The mean of uniform data is its common value. */
  lemma MeanOfUniform(s: seq<real>)
    requires s != [] && Uniform(s)
    ensures Mean(s) == s[0]
  {
    SumOfConstant(s, s[0]);
    DivideWithin(Sum(s), |s| as real, s[0], s[0]);
  }

  /** The squared deviations from `c` sum to zero exactly when every element is `c`. */
  lemma {:induction false} SumSqDevZero(s: seq<real>, c: real)
    ensures SumSqDev(s, c) == 0.0 <==> forall i :: 0 <= i < |s| ==> s[i] == c
  {
    if s != [] {
      SumSqDevZero(s[1..], c);
      assert forall i :: 1 <= i < |s| ==> s[i] == s[1..][i - 1];
      if s[0] != c {
        SquarePositive(s[0] - c);
      }
    }
  }

  /** The sum of squared deviations from the mean is the count times the variance. */
  lemma VarianceTimesCount(s: seq<real>)
    ensures Variance(s) * (|s| as real) == SumSqDev(s, Mean(s))
  {
    if s == [] {
      assert Variance(s) == 0.0 && SumSqDev(s, Mean(s)) == 0.0;
      ProductWithZero(Variance(s), |s| as real);
    } else {
      NonEmptyVarianceTimesCount(s);
    }
  }

  lemma ProductWithZero(q: real, n: real)
    requires n == 0.0
    ensures q * n == 0.0
  {
  }

  lemma NonEmptyVarianceTimesCount(s: seq<real>)
    requires s != []
    ensures Variance(s) * (|s| as real) == SumSqDev(s, Mean(s))
  {
    QuotientTimesDivisor(Variance(s), SumSqDev(s, Mean(s)), |s| as real);
  }

  lemma DivideBySelf(a: real)
    requires a != 0.0
    ensures a / a == 1.0
  {
  }

  lemma QuotientTimesDivisor(q: real, a: real, n: real)
    requires n != 0.0 && q == a / n
    ensures q * n == a
  {
  }

  /** The population variance is zero exactly when the data is uniform. */
  lemma VarianceZeroIffUniform(s: seq<real>)
    ensures Variance(s) == 0.0 <==> Uniform(s)
  {
    if s != [] {
      SumSqDevZero(s, Mean(s));
      if Uniform(s) {
        MeanOfUniform(s);
        assert SumSqDev(s, Mean(s)) == 0.0;
      } else {
        assert exists i :: 0 <= i < |s| && s[i] != Mean(s);
        VarianceTimesCount(s);
        assert Variance(s) * (|s| as real) != 0.0;
      }
    }
  }

  /** If every squared deviation from `c` exceeds `v`, their sum exceeds `n * v`. */
  lemma {:induction false} SumSqDevAbove(s: seq<real>, c: real, v: real)
    requires s != []
    requires forall i :: 0 <= i < |s| ==> Square(s[i] - c) > v
    ensures SumSqDev(s, c) > (|s| as real) * v
  {
    if |s| == 1 {
      assert SumSqDev(s[1..], c) == 0.0;
    } else {
      SumSqDevAbove(s[1..], c, v);
    }
  }

  /** Some element deviates from the mean by no more than the variance, in square. */
  lemma SomeDeviationWithinVariance(s: seq<real>) returns (k: nat)
    requires s != []
    ensures k < |s| && Square(s[k] - Mean(s)) <= Variance(s)
  {
    VarianceTimesCount(s);
    if forall i :: 0 <= i < |s| ==> Square(s[i] - Mean(s)) > Variance(s) {
      SumSqDevAbove(s, Mean(s), Variance(s));
      assert false;
    }
    k :| 0 <= k < |s| && Square(s[k] - Mean(s)) <= Variance(s);
  }
}
