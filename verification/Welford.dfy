/** The online mean and variance with its clamp on outliers, against the batch formulas. The
    square root is a parameter, known only through its square. */
module Welford {
  import opened RealArith
  import opened Statistics

  // ---------------------------------------------------------------------
  // Batch statistics

  /** m is the mean of xs and d the sum of squared deviations from it. */
  ghost predicate IsBatch(xs: seq<real>, m: real, d: real) {
    if xs == [] then m == 0.0 && d == 0.0
    else Times(|xs| as real, m) == Sum(xs) && d == SquaresAround(xs, m)
  }

  /** There is no spread exactly when all samples are equal. */
  lemma NoSpreadIff(xs: seq<real>, m: real, d: real)
    requires IsBatch(xs, m, d) && xs != []
    ensures d == 0.0 <==> AllEqual(xs)
    ensures d >= 0.0
  {
    NoDeviation(xs, m);
    if AllEqual(xs) {
      SumConstant(xs, xs[0]);
      CancelFactor(|xs| as real, m, xs[0]);
      CancelFactor(|xs| as real, xs[0], m);
    }
  }

  // ---------------------------------------------------------------------
  // One update

  /** The observation after clamping: n counts it, root is the deviation before it. */
  function Clamped(val: real, mean: real, root: real, n: nat): real {
    if n > 10 && root > 0.0 then
      if val > mean + 5.0 * root then mean + 5.0 * root
      else if val < mean - 5.0 * root then mean - 5.0 * root
      else val
    else val
  }

  /** From the eleventh sample on, with some spread, the accepted value is the point nearest to the
      observation among those within five deviations of the mean; before that, the observation. */
  lemma ClampedIsNearest(val: real, mean: real, root: real, n: nat, y: real)
    requires root >= 0.0
    ensures var x := Clamped(val, mean, root, n);
            if n <= 10 || root == 0.0 then x == val
            else Abs(x - mean) <= 5.0 * root && (Abs(y - mean) <= 5.0 * root && y != x ==> Abs(val - x) < Abs(val - y))
    ensures Abs(val - mean) <= 5.0 * root ==> Clamped(val, mean, root, n) == val
  {
  }

  /** root is the square root that the update takes of m2 over the count before it. */
  ghost predicate IsRoot(root: real, m2: real, count: nat) {
    root >= 0.0 && Times(count as real, Sq(root)) == m2
  }

  class WelfordState {
    var count: nat
    var mean: real
    var m2: real
    ghost var accepted: seq<real>

    ghost predicate Valid()
      reads this
    {
      count == |accepted| && IsBatch(accepted, mean, m2)
    }

    constructor ()
      ensures Valid() && accepted == [] && count == 0
    {
      count, mean, m2 := 0, 0.0, 0.0;
      accepted := [];
    }

    method Update(val: real, root: real)
      requires Valid() && (count >= 10 ==> IsRoot(root, m2, count))
      modifies this
      ensures Valid()
      ensures accepted == old(accepted) + [Clamped(val, old(mean), root, count)]
      ensures old(count) >= 10 && old(m2) > 0.0 ==> WithinOutlierBound(old(mean), old(m2), mean, m2, root, count)
      ensures old(count) >= 10 ==>
                (WithinOutlierBound(old(mean), old(m2), mean, m2, root, count) <==>
                  !AllEqual(old(accepted)) || val == old(mean))
      ensures count == old(count) + 1 && m2 >= old(m2)
    {
      hide IsBatch, IsRoot, WithinOutlierBound, AllEqual;
      ghost var mean0, m20 := mean, m2;
      count := count + 1;
      var x := val;
      if count > 10 {
        if root > 0.0 {
          var maxDelta := 5.0 * root;
          if x > mean + maxDelta {
            x := mean + maxDelta;
          } else if x < mean - maxDelta {
            x := mean - maxDelta;
          }
        }
      }
      assert x == Clamped(val, mean0, root, count);
      var delta := x - mean;
      var step := Divide(delta, count as real);
      mean := mean + step;
      var delta2 := x - mean;
      m2 := m2 + Times(delta, delta2);
      UpdateIsBatch(accepted, mean0, m20, x, step);
      SpreadStays(count, delta, step);
      if count > 10 {
        NoSpreadIff(accepted, mean0, m20);
        OutlierBoundIff(mean0, m20, val, root, count, step);
      }
      accepted := accepted + [x];
    }
  }

  /** The recurrence computes the batch statistics of one more sample. */
  lemma UpdateIsBatch(xs: seq<real>, mean: real, m2: real, x: real, step: real)
    requires IsBatch(xs, mean, m2) && Times(step, |xs| as real + 1.0) == x - mean
    ensures IsBatch(xs + [x], mean + step, m2 + Times(x - mean, x - (mean + step)))
  {
    var n, xs' := |xs| as real, xs + [x];
    assert xs'[..|xs'| - 1] == xs && |xs'| as real == n + 1.0;
    Expand(xs, mean);
    Expand(xs', mean + step);
    SquareOfDifference(x, 0.0);
    var q := SquaresAround(xs, 0.0);
    assert SquaresAround(xs', 0.0) == q + Sq(x);
    OneMore(n, mean);
    assert Times(n, mean) == Sum(xs);
    UpdateAlgebra(n, mean, x, step, Sum(xs), q);
  }

  lemma UpdateAlgebra(n: real, mean: real, x: real, step: real, total: real, q: real)
    requires Times(n, mean) == total && Times(step, n + 1.0) == x - mean
    ensures Times(n + 1.0, mean + step) == total + x
    ensures q + Sq(x) - 2.0 * Times(mean + step, total + x) + Times(n + 1.0, Sq(mean + step))
         == q - 2.0 * Times(mean, total) + Times(n, Sq(mean)) + Times(x - mean, x - (mean + step))
  {
    var m := mean + step;
    assert Times(n + 1.0, m) == Times(n, mean) + mean + Times(step, n + 1.0);
    assert Times(n + 1.0, Sq(m)) == Times(m, Times(n + 1.0, m)) == Times(m, total + x);
    assert Times(n, Sq(mean)) == Times(mean, Times(n, mean)) == Times(mean, total);
    assert Times(m, total + x) == Times(mean, total) + Times(mean, x) + Times(step, total + x);
    assert total + x == Times(n + 1.0, m);
    assert Times(step, Times(n + 1.0, m)) == Times(m, Times(step, n + 1.0)) == Times(m, x - mean);
  }

  // ---------------------------------------------------------------------
  // Outliers

  /** One observation moves the mean by at most five deviations over n, and multiplies m2 by
      at most 1 + 25 / n. */
  ghost predicate WithinOutlierBound(mean: real, m2: real, mean': real, m2': real, root: real, n: nat) {
    && Times(n as real, Abs(mean' - mean)) <= 5.0 * root
    && Times(n as real, m2' - m2) <= 25.0 * m2
  }

  lemma ClampedNear(val: real, mean: real, root: real, n: nat)
    requires n > 10 && root > 0.0
    ensures Abs(Clamped(val, mean, root, n) - mean) <= 5.0 * root
  {
  }

  lemma RootPositive(root: real, m2: real, count: nat)
    requires IsRoot(root, m2, count) && count > 0
    ensures m2 > 0.0 <==> root > 0.0
    ensures m2 >= 0.0
  {
    if root > 0.0 {
      SqPositive(root);
      MulPositive(count as real, Sq(root));
    }
  }

  lemma OutlierBound(mean: real, m2: real, val: real, root: real, n: nat, step: real)
    requires n > 10 && IsRoot(root, m2, n - 1) && m2 > 0.0
    requires Times(step, n as real) == Clamped(val, mean, root, n) - mean
    ensures var x := Clamped(val, mean, root, n);
            WithinOutlierBound(mean, m2, mean + step, m2 + Times(x - mean, x - (mean + step)), root, n)
  {
    var x := Clamped(val, mean, root, n);
    var delta := x - mean;
    RootPositive(root, m2, n - 1);
    ClampedNear(val, mean, root, n);
    AbsTimes(n as real, step);
    GrowthOf(n as real, delta, step);
    SquareAbs(delta, 5.0 * root);
    assert Sq(5.0 * root) == 25.0 * Sq(root);
    MulMonotone(Sq(delta), 25.0 * Sq(root), (n - 1) as real);
    assert Times((n - 1) as real, 25.0 * Sq(root)) == 25.0 * Times((n - 1) as real, Sq(root));
  }

  lemma AbsTimes(n: real, step: real)
    requires n > 0.0
    ensures Times(n, Abs(step)) == Abs(Times(step, n))
  {
    MulMonotone(0.0, Abs(step), n);
    assert Times(n, Abs(step)) == Times(step, n) || Times(n, Abs(step)) == -Times(step, n);
  }

  /** How much m2 grows: the squared distance from the mean, less one part in n. */
  lemma GrowthOf(n: real, delta: real, step: real)
    requires Times(step, n) == delta
    ensures Times(n, Times(delta, delta - step)) == Times(n - 1.0, Sq(delta))
  {
    assert Times(n, Times(delta, delta - step)) == Times(n, Sq(delta)) - Times(delta, Times(step, n));
  }

  /** An update never lowers m2, so a spread once seen is never lost. */
  lemma SpreadStays(n: nat, delta: real, step: real)
    requires n >= 1 && Times(step, n as real) == delta
    ensures Times(delta, delta - step) >= 0.0
  {
    GrowthOf(n as real, delta, step);
    SqNonNegative(delta);
    MulMonotone(0.0, Sq(delta), (n - 1) as real);
    TimesUnits(n as real);
    TimesUnits((n - 1) as real);
    CancelFactor(n as real, 0.0, Times(delta, delta - step));
  }

  /** From the eleventh sample on, the bound on m2 holds exactly when there was some spread
      before, or the observation is the mean: with no spread nothing is clamped. */
  lemma OutlierBoundIff(mean: real, m2: real, val: real, root: real, n: nat, step: real)
    requires n > 10 && IsRoot(root, m2, n - 1)
    requires Times(step, n as real) == Clamped(val, mean, root, n) - mean
    ensures var x := Clamped(val, mean, root, n);
            var m2' := m2 + Times(x - mean, x - (mean + step));
            WithinOutlierBound(mean, m2, mean + step, m2', root, n) <==> (m2 > 0.0 || val == mean)
  {
    RootPositive(root, m2, n - 1);
    if m2 > 0.0 {
      OutlierBound(mean, m2, val, root, n, step);
    } else {
      var delta := val - mean;
      AbsTimes(n as real, step);
      GrowthOf(n as real, delta, step);
      if delta != 0.0 {
        SqPositive(delta);
        MulPositive((n - 1) as real, Sq(delta));
      }
    }
  }
}
