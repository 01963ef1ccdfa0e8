/** Sums, deviations and pairwise differences over lists of reals. */
module Statistics {
  import opened RealArith

  function Sum(x: seq<real>): real {
    if x == [] then 0.0 else Sum(x[..|x| - 1]) + x[|x| - 1]
  }

  /** Sum of squared deviations from c. */
  ghost function SquaresAround(x: seq<real>, c: real): real {
    if x == [] then 0.0 else SquaresAround(x[..|x| - 1], c) + Sq(x[|x| - 1] - c)
  }

  ghost function Mean(x: seq<real>): real {
    if x == [] then 0.0 else Sum(x) / |x| as real
  }

  ghost function Variance(x: seq<real>): real {
    if x == [] then 0.0 else SquaresAround(x, Mean(x)) / |x| as real
  }

  /** The sample standard deviation, for any square-root function. */
  ghost function StdDev(sqrt: real -> real, x: seq<real>): real {
    if |x| < 2 then 0.0 else sqrt(SquaresAround(x, Mean(x)) / (|x| - 1) as real)
  }

  lemma {:induction false} Expand(xs: seq<real>, c: real)
    ensures SquaresAround(xs, c) == SquaresAround(xs, 0.0) - 2.0 * Times(c, Sum(xs)) + Times(|xs| as real, Sq(c))
  {
    if xs != [] {
      var rest, x := xs[..|xs| - 1], xs[|xs| - 1];
      Expand(rest, c);
      SquareOfDifference(x, c);
      TimesDistributes(c, Sum(rest), x);
      OneMore(|rest| as real, Sq(c));
    } else {
      TimesUnits(c);
    }
  }

  lemma SquareOfDifference(x: real, c: real)
    ensures Sq(x - c) == Sq(x - 0.0) - 2.0 * Times(c, x) + Sq(c)
  {
  }

  lemma OneMore(n: real, a: real)
    ensures Times(n + 1.0, a) == Times(n, a) + a
    ensures Times(0.0, a) == 0.0
  {
  }

  ghost predicate AllEqual(xs: seq<real>) {
    forall i, j :: 0 <= i < |xs| && 0 <= j < |xs| ==> xs[i] == xs[j]
  }

  lemma {:induction false} NoDeviation(xs: seq<real>, c: real)
    ensures SquaresAround(xs, c) >= 0.0
    ensures SquaresAround(xs, c) == 0.0 <==> forall i :: 0 <= i < |xs| ==> xs[i] == c
  {
    if xs != [] {
      var rest, x := xs[..|xs| - 1], xs[|xs| - 1];
      NoDeviation(rest, c);
      SqNonNegative(x - c);
      if x != c {
        SqPositive(x - c);
      } else {
        TimesUnits(0.0);
      }
    }
  }

  /** Adding d to every entry adds |x| d to the sum. */
  lemma {:induction false} SumShift(x: seq<real>, y: seq<real>, d: real)
    requires |x| == |y| && forall i :: 0 <= i < |x| ==> y[i] == x[i] + d
    ensures Sum(y) == Sum(x) + Times(|x| as real, d)
    decreases |x|
  {
    if x != [] {
      SumShift(x[..|x| - 1], y[..|x| - 1], d);
      assert Times(|x| as real, d) == Times((|x| - 1) as real, d) + d;
    }
  }

  lemma {:induction false} SumConstant(x: seq<real>, c: real)
    requires forall i :: 0 <= i < |x| ==> x[i] == c
    ensures Sum(x) == Times(|x| as real, c) && SquaresAround(x, c) == 0.0
    decreases |x|
  {
    if x != [] {
      SumConstant(x[..|x| - 1], c);
      assert Times(|x| as real, c) == Times((|x| - 1) as real, c) + c;
    }
  }

  // ---------------------------------------------------------------------
  // What mean and deviation measure

  /** The sum over i < j of (x[i] - x[j]) squared. */
  ghost function PairSquares(x: seq<real>): real {
    if x == [] then 0.0 else
      var init, last := x[..|x| - 1], x[|x| - 1];
      PairSquares(init) + SquaresAround(init, last)
  }

  lemma MeanTimes(x: seq<real>)
    requires x != []
    ensures Times(|x| as real, Mean(x)) == Sum(x)
  {
  }

  lemma MeanShift(x: seq<real>, y: seq<real>, d: real)
    requires |x| == |y| > 0 && forall i :: 0 <= i < |x| ==> y[i] == x[i] + d
    ensures Mean(y) - Mean(x) == d
  {
    hide Mean, Sum;
    var n := |x| as real;
    SumShift(x, y, d);
    MeanTimes(x);
    MeanTimes(y);
    TimesDistributes(n, Mean(x), d);
    CancelFactor(n, Mean(x) + d, Mean(y));
    CancelFactor(n, Mean(y), Mean(x) + d);
  }

  /** The mean is the one point around which the squares are least. */
  lemma MeanIsCentre(x: seq<real>, c: real)
    requires x != []
    ensures SquaresAround(x, c) == SquaresAround(x, Mean(x)) + Times(|x| as real, Sq(c - Mean(x)))
    ensures c != Mean(x) ==> SquaresAround(x, c) > SquaresAround(x, Mean(x))
  {
    hide Mean, SquaresAround;
    var n, m := |x| as real, Mean(x);
    MeanTimes(x);
    Expand(x, c);
    Expand(x, m);
    CentreAlgebra(n, m, c, Sum(x));
    if c != m {
      SqPositive(c - m);
      MulPositive(n, Sq(c - m));
    }
  }

  lemma CentreAlgebra(n: real, m: real, c: real, total: real)
    requires Times(n, m) == total
    ensures Times(n, Sq(c)) - 2.0 * Times(c, total) == Times(n, Sq(m)) - 2.0 * Times(m, total) + Times(n, Sq(c - m))
  {
    SquareOfDifference(c, m);
    assert Times(c, total) == Times(n, Times(m, c));
    assert Times(m, total) == Times(n, Sq(m));
    assert Times(n, Sq(c - m)) == Times(n, Sq(c)) - 2.0 * Times(n, Times(m, c)) + Times(n, Sq(m));
  }

  /** Pairs against raw moments. */
  lemma {:induction false} PairsExpand(x: seq<real>)
    ensures PairSquares(x) == Times(|x| as real, SquaresAround(x, 0.0)) - Sq(Sum(x))
  {
    if x != [] {
      var init, y := x[..|x| - 1], x[|x| - 1];
      PairsExpand(init);
      Expand(init, y);
      PairsAlgebra(|init| as real, SquaresAround(init, 0.0), Sum(init), y);
    } else {
      TimesUnits(0.0);
    }
  }

  lemma PairsAlgebra(n: real, q: real, total: real, y: real)
    ensures Times(n, q) - Sq(total) + (q - 2.0 * Times(y, total) + Times(n, Sq(y)))
         == Times(n + 1.0, q + Sq(y - 0.0)) - Sq(total + y)
  {
    OneMore(n, q + Sq(y));
    TimesDistributes(n, q, Sq(y));
    SquareOfDifference(total, -y);
    assert Times(-y, total) == -Times(y, total) && Sq(-y) == Sq(y);
  }

  /** The squared deviations from the mean, n times over, are the squared differences of all pairs. */
  lemma DeviationsArePairs(x: seq<real>)
    requires x != []
    ensures Times(|x| as real, SquaresAround(x, Mean(x))) == PairSquares(x)
  {
    hide Mean, SquaresAround, PairSquares;
    var n, m := |x| as real, Mean(x);
    MeanTimes(x);
    Expand(x, m);
    PairsExpand(x);
    assert Times(m, Sum(x)) == Times(n, Sq(m));
    assert Times(n, Times(m, Sum(x))) == Sq(Sum(x));
    TimesDistributes(n, SquaresAround(x, 0.0), Times(m, Sum(x)));
  }

  /** Adding the same number to every observation changes no difference, and so no deviation. */
  lemma {:induction false} ShiftKeepsSquares(x: seq<real>, y: seq<real>, d: real, c: real)
    requires |x| == |y| && forall i :: 0 <= i < |x| ==> y[i] == x[i] + d
    ensures SquaresAround(y, c + d) == SquaresAround(x, c)
    decreases |x|
  {
    if x != [] {
      ShiftKeepsSquares(x[..|x| - 1], y[..|x| - 1], d, c);
    }
  }

  lemma ShiftKeepsDeviation(sqrt: real -> real, x: seq<real>, y: seq<real>, d: real)
    requires |x| == |y| && forall i :: 0 <= i < |x| ==> y[i] == x[i] + d
    ensures StdDev(sqrt, y) == StdDev(sqrt, x)
  {
    hide Mean, SquaresAround;
    if |x| >= 2 {
      MeanShift(x, y, d);
      ShiftKeepsSquares(x, y, d, Mean(x));
    }
  }

  /** The value under the root of the deviation: (n - 1) times it is the sum over all pairs over n. */
  lemma UnderTheRoot(sqrt: real -> real, x: seq<real>) returns (v: real)
    requires |x| >= 2
    ensures StdDev(sqrt, x) == sqrt(v) && v >= 0.0
    ensures Times(|x| as real, Times((|x| - 1) as real, v)) == PairSquares(x)
  {
    hide SquaresAround, PairSquares, Mean;
    var k, sumSq := (|x| - 1) as real, SquaresAround(x, Mean(x));
    v := sumSq / k;
    assert Times(k, v) == sumSq;
    DeviationsArePairs(x);
    NoDeviation(x, Mean(x));
    TimesUnits(k);
    CancelFactor(k, 0.0, v);
  }

  /** sqrt gives the root of every number that has one. */
  ghost predicate IsSquareRoot(sqrt: real -> real) {
    forall v :: v >= 0.0 ==> sqrt(v) >= 0.0 && Times(sqrt(v), sqrt(v)) == v
  }

  /** The pairs differ by enough: on average, by 10^-18 or more in the square. */
  ghost predicate Varies(x: seq<real>) {
    |x| >= 2 && PairSquares(x) >= (|x| * (|x| - 1)) as real * 0.000000000000000001
  }

  /** The deviation reaches 10^-9 exactly when the observations vary by that much. */
  lemma DeviationIff(sqrt: real -> real, x: seq<real>)
    requires IsSquareRoot(sqrt)
    ensures StdDev(sqrt, x) >= 0.000000001 <==> Varies(x)
  {
    hide PairSquares;
    if |x| >= 2 {
      var v := UnderTheRoot(sqrt, x);
      hide StdDev;
      var n, k, s, f := |x| as real, (|x| - 1) as real, sqrt(v), 0.000000000000000001;
      SqOrder(0.000000001, s);
      assert Sq(0.000000001) == f;
      assert (|x| * (|x| - 1)) as real * f == Times(n, Times(k, f));
      if v >= f {
        MulMonotone(f, v, k);
        MulMonotone(Times(k, f), Times(k, v), n);
      }
      if Times(n, Times(k, v)) >= Times(n, Times(k, f)) {
        CancelFactor(n, Times(k, f), Times(k, v));
        CancelFactor(k, f, v);
      }
    }
  }

  /** Equal observations do not vary. */
  lemma EqualDoNotVary(x: seq<real>)
    requires AllEqual(x)
    ensures !Varies(x)
  {
    if |x| >= 2 {
      SumConstant(x, x[0]);
      MeanTimes(x);
      CancelFactor(|x| as real, Mean(x), x[0]);
      CancelFactor(|x| as real, x[0], Mean(x));
      DeviationsArePairs(x);
      TimesUnits(|x| as real);
      assert PairSquares(x) == 0.0;
      assert |x| * (|x| - 1) >= 2;
    }
  }

  /** The variance, n squared times over, is the sum over all pairs. */
  lemma VarianceIsPairs(x: seq<real>)
    requires x != []
    ensures Times(|x| as real, Times(|x| as real, Variance(x))) == PairSquares(x)
  {
    hide SquaresAround, PairSquares, Mean;
    assert Times(|x| as real, Variance(x)) == SquaresAround(x, Mean(x));
    DeviationsArePairs(x);
  }
}
