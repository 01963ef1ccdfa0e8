/** The ridge-regression fit of a linear structural function. */
module RidgeFit {
  import opened RealArith
  import opened LinearAlgebra
  import opened Gauss
  import opened Statistics

  type Sample = map<string, real>

  /** A structural function: parent values and noise to node value. */
  type StructuralFn = (seq<real>, real) -> real

  const RIDGE := 0.0001

  /** Far beyond what memory can hold; with more unknowns than this the argument
      that no pivot is too small would no longer apply. */
  const MAX_UNKNOWNS := 10_000_000_000_000_000

  function Lookup(s: Sample, id: string): real {
    if id in s then s[id] else 0.0
  }

  // ---------------------------------------------------------------------
  // The regression problem

  ghost function DesignRow(parentIDs: seq<string>, s: Sample): (r: Vector)
    ensures |r| == |parentIDs| + 1
  {
    seq(|parentIDs| + 1, j requires 0 <= j < |parentIDs| + 1 =>
      if j < |parentIDs| then Lookup(s, parentIDs[j]) else 1.0)
  }

  ghost function Design(parentIDs: seq<string>, samples: seq<Sample>): (r: Matrix)
    ensures IsMatrix(r, |samples|, |parentIDs| + 1)
  {
    seq(|samples|, i requires 0 <= i < |samples| => DesignRow(parentIDs, samples[i]))
  }

  ghost function Targets(targetID: string, samples: seq<Sample>): (r: Vector)
    ensures |r| == |samples|
  {
    seq(|samples|, i requires 0 <= i < |samples| => Lookup(samples[i], targetID))
  }

  /** Squared error plus the penalty on all coefficients, the intercept included. */
  ghost function Cost(x: Matrix, n: nat, y: Vector, beta: Vector): real
    requires IsMatrix(x, |x|, n) && |y| == |x| && |beta| == n
  {
    var r := Axpy(MatVec(x, n, beta), -1.0, y);
    Dot(r, r) + Times(RIDGE, Dot(beta, beta))
  }

  ghost predicate RidgeOptimum(x: Matrix, n: nat, y: Vector, beta: Vector)
    requires IsMatrix(x, |x|, n) && |y| == |x|
  {
    |beta| == n && forall g: Vector {:trigger Cost(x, n, y, g)} :: |g| == n && g != beta ==> Cost(x, n, y, beta) < Cost(x, n, y, g)
  }

  // ---------------------------------------------------------------------
  // The normal equations

  ghost function NormalRow(x: Matrix, n: nat, i: nat): (r: Vector)
    requires IsMatrix(x, |x|, n) && i < n
    ensures |r| == n
  {
    seq(n, j requires 0 <= j < n => Dot(Column(x, n, i), Column(x, n, j)) + if i == j then RIDGE else 0.0)
  }

  ghost function NormalMatrix(x: Matrix, n: nat): (r: Matrix)
    requires IsMatrix(x, |x|, n)
    ensures IsMatrix(r, n, n)
  {
    seq(n, i requires 0 <= i < n => NormalRow(x, n, i))
  }

  ghost function Unit(n: nat, i: nat): (r: Vector)
    ensures |r| == n
  {
    seq(n, j => if j == i then 1.0 else 0.0)
  }

  lemma DotUnit(v: Vector, i: nat)
    requires i < |v|
    ensures Dot(Unit(|v|, i), v) == v[i]
  {
    DotSkip(Unit(|v|, i), v, 0, i);
    DotSkip(Unit(|v|, i), v, i + 1, |v|);
  }

  /** The normal matrix acts as X^T X + ridge I. */
  lemma NormalTimes(x: Matrix, n: nat, v: Vector)
    requires IsMatrix(x, |x|, n) && |v| == n
    ensures MatVec(NormalMatrix(x, n), n, v) == Axpy(TransVec(x, n, MatVec(x, n, v)), RIDGE, v)
  {
    forall i | 0 <= i < n
      ensures Dot(NormalRow(x, n, i), v) == TransVec(x, n, MatVec(x, n, v))[i] + RIDGE * v[i]
    {
      var c := Column(x, n, i);
      var t := TransVec(x, n, c);
      forall j | 0 <= j < n
        ensures NormalRow(x, n, i)[j] == Axpy(t, RIDGE, Unit(n, i))[j]
      {
        DotCommutes(Column(x, n, j), c, 0);
      }
      assert NormalRow(x, n, i) == Axpy(t, RIDGE, Unit(n, i));
      DotAxpy(t, RIDGE, Unit(n, i), v, 0);
      DotUnit(v, i);
      Adjoint(x, n, c, v);
    }
    assert MatVec(NormalMatrix(x, n), n, v) == Axpy(TransVec(x, n, MatVec(x, n, v)), RIDGE, v);
  }

  /** |(X^T X + ridge I) v|^2 >= ridge^2 |v|^2. */
  lemma NormalStretches(x: Matrix, n: nat, v: Vector)
    requires IsMatrix(x, |x|, n) && |v| == n
    ensures NormSq(NormalMatrix(x, n), v) >= Times(Times(RIDGE, RIDGE), Dot(v, v))
  {
    var xv := MatVec(x, n, v);
    var t := TransVec(x, n, xv);
    NormSqIsDot(NormalMatrix(x, n), v, 0);
    NormalTimes(x, n, v);
    SquareExpand(t, RIDGE, v);
    Adjoint(x, n, xv, v);
    DotSelfNonNegative(xv, 0);
    DotSelfNonNegative(t, 0);
  }

  lemma NormalWellConditioned(x: Matrix, n: nat)
    requires IsMatrix(x, |x|, n) && n <= MAX_UNKNOWNS
    ensures WellConditioned(NormalMatrix(x, n))
  {
    var m := NormalMatrix(x, n);
    forall v: Vector | |v| == n
      ensures NormSq(m, v) >= Times(Times(n as real, Sq(PIVOT_FLOOR)), Dot(v, v))
    {
      NormalStretches(x, n, v);
      DotSelfNonNegative(v, 0);
      FloorBelowRidge(n);
      MulMonotone(Times(n as real, Sq(PIVOT_FLOOR)), Times(RIDGE, RIDGE), Dot(v, v));
    }
  }

  lemma FloorBelowRidge(n: nat)
    requires n <= MAX_UNKNOWNS
    ensures Times(n as real, Sq(PIVOT_FLOOR)) <= Times(RIDGE, RIDGE)
  {
    assert Sq(PIVOT_FLOOR) == 0.000000000000000000000001;
    MulMonotone(n as real, MAX_UNKNOWNS as real, Sq(PIVOT_FLOOR));
  }

  lemma TransVecAxpy(x: Matrix, n: nat, a: Vector, t: real, b: Vector)
    requires IsMatrix(x, |x|, n) && |a| == |b| == |x|
    ensures TransVec(x, n, Axpy(a, t, b)) == Axpy(TransVec(x, n, a), t, TransVec(x, n, b))
  {
    forall i | 0 <= i < n
      ensures TransVec(x, n, Axpy(a, t, b))[i] == Axpy(TransVec(x, n, a), t, TransVec(x, n, b))[i]
    {
      var c := Column(x, n, i);
      DotCommutes(c, Axpy(a, t, b), 0);
      DotAxpy(a, t, b, c, 0);
      DotCommutes(c, a, 0);
      DotCommutes(c, b, 0);
    }
  }

  /** At a solution of the normal equations the gradient of the error balances
      that of the penalty: X^T (X beta - y) = -ridge beta. */
  lemma GradientBalance(x: Matrix, n: nat, y: Vector, beta: Vector, d: Vector)
    requires IsMatrix(x, |x|, n) && |y| == |x| && |beta| == |d| == n
    requires Solves(NormalMatrix(x, n), TransVec(x, n, y), beta)
    ensures Dot(Axpy(MatVec(x, n, beta), -1.0, y), MatVec(x, n, d)) == -Times(RIDGE, Dot(beta, d))
  {
    var xb := MatVec(x, n, beta);
    var r := Axpy(xb, -1.0, y);
    var g := TransVec(x, n, r);
    NormalTimes(x, n, beta);
    TransVecAxpy(x, n, xb, -1.0, y);
    var zero := Axpy(g, RIDGE, beta);
    forall i | 0 <= i < n
      ensures zero[i] == 0.0
    {
      assert Dot(NormalMatrix(x, n)[i], beta) == TransVec(x, n, y)[i];
      assert MatVec(NormalMatrix(x, n), n, beta)[i] == TransVec(x, n, xb)[i] + RIDGE * beta[i];
    }
    DotZero(zero, d, 0);
    DotAxpy(g, RIDGE, beta, d, 0);
    Adjoint(x, n, r, d);
  }

  /** Moving away from a solution of the normal equations costs |X d|^2 + ridge |d|^2. */
  lemma CostDifference(x: Matrix, n: nat, y: Vector, beta: Vector, d: Vector)
    requires IsMatrix(x, |x|, n) && |y| == |x| && |beta| == |d| == n
    requires Solves(NormalMatrix(x, n), TransVec(x, n, y), beta)
    ensures Cost(x, n, y, Axpy(beta, 1.0, d)) ==
            Cost(x, n, y, beta) + Dot(MatVec(x, n, d), MatVec(x, n, d)) + Times(RIDGE, Dot(d, d))
  {
    var g := Axpy(beta, 1.0, d);
    var xb, xd := MatVec(x, n, beta), MatVec(x, n, d);
    var r := Axpy(xb, -1.0, y);
    MatVecAxpy(x, n, beta, 1.0, d);
    var xg := MatVec(x, n, g);
    assert Axpy(xg, -1.0, y) == Axpy(r, 1.0, xd);
    SquareExpand(r, 1.0, xd);
    SquareExpand(beta, 1.0, d);
    GradientBalance(x, n, y, beta, d);
    assert Times(RIDGE, Dot(g, g)) ==
           Times(RIDGE, Dot(beta, beta)) + 2.0 * Times(RIDGE, Dot(beta, d)) + Times(RIDGE, Dot(d, d));
  }

  /** The normal equations characterise the ridge optimum. */
  lemma SolutionIsOptimum(x: Matrix, n: nat, y: Vector, beta: Vector)
    requires IsMatrix(x, |x|, n) && |y| == |x| && |beta| == n
    requires Solves(NormalMatrix(x, n), TransVec(x, n, y), beta)
    ensures RidgeOptimum(x, n, y, beta)
  {
    forall g: Vector | |g| == n && g != beta
      ensures Cost(x, n, y, beta) < Cost(x, n, y, g)
    {
      var d := Axpy(g, -1.0, beta);
      assert Axpy(beta, 1.0, d) == g;
      CostDifference(x, n, y, beta, d);
      DotSelfNonNegative(MatVec(x, n, d), 0);
      var k :| 0 <= k < n && g[k] != beta[k];
      DotSelfNonNegative(d, 0);
      SqPositive(d[k]);
      assert Dot(d, d) >= Sq(d[k]);
      MulPositive(RIDGE, Dot(d, d));
    }
  }

  lemma OptimumUnique(x: Matrix, n: nat, y: Vector, beta: Vector, g: Vector)
    requires IsMatrix(x, |x|, n) && |y| == |x| && RidgeOptimum(x, n, y, beta) && RidgeOptimum(x, n, y, g)
    ensures beta == g
  {
    hide Cost;
    var least, other := Cost(x, n, y, beta), Cost(x, n, y, g);
    assert beta != g ==> least < other < least;
  }

  // ---------------------------------------------------------------------
  // The structural functions

  function WeightedSum(beta: seq<real>, inputs: seq<real>, n: nat): real
    requires n <= |beta| && n <= |inputs|
  {
    if n == 0 then 0.0 else WeightedSum(beta, inputs, n - 1) + Times(beta[n - 1], inputs[n - 1])
  }

  /** Intercept, weighted inputs, noise; inputs beyond the coefficients are ignored. */
  function FittedOutput(beta: seq<real>, inputs: seq<real>, noise: real): real
    requires |beta| >= 1
  {
    var k := |beta| - 1;
    beta[k] + WeightedSum(beta, inputs, if |inputs| < k then |inputs| else k) + noise
  }

  /** f computes the fitted output for beta. */
  ghost predicate Outputs(f: StructuralFn, beta: Vector) {
    |beta| >= 1 && forall inputs, noise :: f(inputs, noise) == FittedOutput(beta, inputs, noise)
  }

  function Linear(inputs: seq<real>, noise: real): real {
    Sum(inputs) + noise
  }

  ghost predicate Additive(f: StructuralFn) {
    forall inputs, noise :: f(inputs, noise) == f(inputs, 0.0) + noise
  }

  lemma {:induction false} WeightedDot(beta: Vector, row: Vector, inputs: seq<real>, n: nat)
    requires |beta| == |row| && n <= |beta| && n <= |inputs| && forall j :: 0 <= j < n ==> row[j] == inputs[j]
    ensures WeightedSum(beta, inputs, n) + DotFrom(row, beta, n) == Dot(row, beta)
  {
    if n > 0 {
      WeightedDot(beta, row, inputs, n - 1);
      assert DotFrom(row, beta, n - 1) == row[n - 1] * beta[n - 1] + DotFrom(row, beta, n);
    }
  }

  /** The values of a sample, in the order of the parents. */
  ghost function ParentValues(parentIDs: seq<string>, s: Sample): (r: seq<real>)
    ensures |r| == |parentIDs|
  {
    seq(|parentIDs|, j requires 0 <= j < |parentIDs| => Lookup(s, parentIDs[j]))
  }

  /** The squared errors of f from sample n on. */
  ghost function PredictionError(f: StructuralFn, parentIDs: seq<string>, targetID: string, samples: seq<Sample>,
                                 n: nat): real
    requires n <= |samples|
    decreases |samples| - n
  {
    if n == |samples| then 0.0
    else Sq(f(ParentValues(parentIDs, samples[n]), 0.0) - Lookup(samples[n], targetID))
         + PredictionError(f, parentIDs, targetID, samples, n + 1)
  }

  /** A function with these coefficients predicts, for a sample, the product of its design row with them. */
  lemma Predicts(f: StructuralFn, beta: Vector, parentIDs: seq<string>, s: Sample)
    requires Outputs(f, beta) && |beta| == |parentIDs| + 1
    ensures f(ParentValues(parentIDs, s), 0.0) == Dot(DesignRow(parentIDs, s), beta)
  {
    var k, row, inputs := |parentIDs|, DesignRow(parentIDs, s), ParentValues(parentIDs, s);
    WeightedDot(beta, row, inputs, k);
    assert DotFrom(row, beta, k + 1) == 0.0;
    assert DotFrom(row, beta, k) == row[k] * beta[k];
    assert f(inputs, 0.0) == FittedOutput(beta, inputs, 0.0);
  }

  /** So what the coefficients minimise is the squared error of the function itself, plus the penalty. */
  lemma CostIsError(f: StructuralFn, beta: Vector, parentIDs: seq<string>, targetID: string, samples: seq<Sample>)
    requires Outputs(f, beta) && |beta| == |parentIDs| + 1
    ensures Cost(Design(parentIDs, samples), |parentIDs| + 1, Targets(targetID, samples), beta)
         == PredictionError(f, parentIDs, targetID, samples, 0) + 0.0001 * Dot(beta, beta)
  {
    ErrorFrom(f, beta, parentIDs, targetID, samples, 0);
  }

  lemma {:induction false} ErrorFrom(f: StructuralFn, beta: Vector, parentIDs: seq<string>, targetID: string,
                                     samples: seq<Sample>, n: nat)
    requires Outputs(f, beta) && |beta| == |parentIDs| + 1 && n <= |samples|
    ensures var x, y := Design(parentIDs, samples), Targets(targetID, samples);
            var r := Axpy(MatVec(x, |parentIDs| + 1, beta), -1.0, y);
            DotFrom(r, r, n) == PredictionError(f, parentIDs, targetID, samples, n)
    decreases |samples| - n
  {
    hide Outputs, DesignRow, ParentValues, Times;
    if n < |samples| {
      hide DotFrom;
      ErrorFrom(f, beta, parentIDs, targetID, samples, n + 1);
      var x, y := Design(parentIDs, samples), Targets(targetID, samples);
      var r := Axpy(MatVec(x, |parentIDs| + 1, beta), -1.0, y);
      DotHead(r, r, n);
      ResidualAt(f, beta, parentIDs, targetID, samples, n);
    }
  }

  lemma ResidualAt(f: StructuralFn, beta: Vector, parentIDs: seq<string>, targetID: string, samples: seq<Sample>, n: nat)
    requires Outputs(f, beta) && |beta| == |parentIDs| + 1 && n < |samples|
    ensures Axpy(MatVec(Design(parentIDs, samples), |parentIDs| + 1, beta), -1.0, Targets(targetID, samples))[n]
         == f(ParentValues(parentIDs, samples[n]), 0.0) - Lookup(samples[n], targetID)
  {
    hide Outputs, DesignRow, ParentValues, DotFrom;
    Predicts(f, beta, parentIDs, samples[n]);
  }

  // ---------------------------------------------------------------------
  // The fit

  method BuildDesign(parentIDs: seq<string>, targetID: string, samples: seq<Sample>)
    returns (x: seq<seq<real>>, y: seq<real>)
    ensures x == Design(parentIDs, samples) && y == Targets(targetID, samples)
  {
    x, y := [], [];
    for i := 0 to |samples|
      invariant |x| == |y| == i
      invariant forall l :: 0 <= l < i ==> x[l] == DesignRow(parentIDs, samples[l])
      invariant forall l :: 0 <= l < i ==> y[l] == Lookup(samples[l], targetID)
    {
      var row := [];
      for j := 0 to |parentIDs|
        invariant |row| == j && forall l :: 0 <= l < j ==> row[l] == Lookup(samples[i], parentIDs[l])
      {
        row := row + [Lookup(samples[i], parentIDs[j])];
      }
      x := x + [row + [1.0]];
      y := y + [Lookup(samples[i], targetID)];
    }
  }

  /** The inner product of two columns, accumulated row by row. */
  method ColumnProduct(x: seq<seq<real>>, n: nat, i: nat, c: seq<real>) returns (sum: real)
    requires IsMatrix(x, |x|, n) && i < n && |c| == |x|
    ensures sum == Dot(Column(x, n, i), c)
  {
    sum := 0.0;
    ghost var col := Column(x, n, i);
    for r := 0 to |x|
      invariant sum + DotFrom(col, c, r) == Dot(col, c)
    {
      sum := sum + x[r][i] * c[r];
    }
  }

  method BuildNormalRow(x: seq<seq<real>>, n: nat, i: nat) returns (row: array<real>)
    requires IsMatrix(x, |x|, n) && i < n
    ensures fresh(row) && row[..] == NormalRow(x, n, i)
  {
    row := new real[n](_ => 0.0);
    for j := 0 to n
      invariant forall l :: 0 <= l < j ==> row[l] == Dot(Column(x, n, i), Column(x, n, l))
    {
      var column := seq(|x|, r requires 0 <= r < |x| => x[r][j]);
      assert column == Column(x, n, j);
      row[j] := ColumnProduct(x, n, i, column);
    }
    row[i] := row[i] + RIDGE;
  }

  method BuildNormalEquations(x: seq<seq<real>>, n: nat, y: seq<real>)
    returns (xtx: array<array<real>>, xty: array<real>)
    requires IsMatrix(x, |x|, n) && |y| == |x|
    ensures fresh(xtx) && fresh(xty) && xtx.Length == n
    ensures (forall k :: 0 <= k < n ==> fresh(xtx[k])) && System(xtx, xty)
    ensures Rows(xtx) == NormalMatrix(x, n) && xty[..] == TransVec(x, n, y)
  {
    hide NormalRow, Column, DotFrom;
    var blank := new real[n];
    xtx := new array<real>[n](_ => blank);
    for i := 0 to n
      invariant forall k :: 0 <= k < n ==> fresh(xtx[k])
      invariant forall k :: 0 <= k < i ==> xtx[k].Length == n && xtx[k][..] == NormalRow(x, n, k) && xtx[k] != blank
      invariant forall k :: i <= k < n ==> xtx[k] == blank
      invariant forall k, l :: 0 <= k < l < i ==> xtx[k] != xtx[l]
    {
      var row := BuildNormalRow(x, n, i);
      xtx[i] := row;
    }
    xty := new real[n](_ => 0.0);
    for i := 0 to n
      invariant forall l :: 0 <= l < i ==> xty[l] == TransVec(x, n, y)[l]
      invariant System(xtx, xty) && forall k :: 0 <= k < n ==> fresh(xtx[k])
      invariant forall k :: 0 <= k < n ==> xtx[k][..] == NormalRow(x, n, k)
    {
      xty[i] := ColumnProduct(x, n, i, y);
    }
  }

  /** The fitted function is the unique ridge optimum, for every dataset: the
      penalty keeps every pivot above the floor. */
  method FitLinearSCM(parentIDs: seq<string>, targetID: string, samples: seq<Sample>) returns (f: StructuralFn)
    ensures Additive(f)
    ensures |parentIDs| == 0 ==> forall inputs, noise :: f(inputs, noise) == noise
    ensures |parentIDs| > 0 && |samples| == 0 ==> f == Linear
    ensures |parentIDs| > 0 && |samples| > 0 ==> exists beta :: |beta| == |parentIDs| + 1 && Outputs(f, beta)
    ensures 0 < |parentIDs| < MAX_UNKNOWNS && |samples| > 0 ==>
              exists beta :: RidgeOptimum(Design(parentIDs, samples), |parentIDs| + 1, Targets(targetID, samples), beta)
                          && Outputs(f, beta)
  {
    var k := |parentIDs|;
    if k == 0 {
      return (inputs, noise) => noise;
    }
    if |samples| == 0 {
      return Linear;
    }
    var x, y := BuildDesign(parentIDs, targetID, samples);
    var xtx, xty := BuildNormalEquations(x, k + 1, y);
    var solution := SolveLinearSystem(xtx, xty);
    var beta := solution[..];
    f := (inputs, noise) => FittedOutput(beta, inputs, noise);
    assert Outputs(f, beta);
    if k < MAX_UNKNOWNS {
      NormalWellConditioned(x, k + 1);
      SolutionIsOptimum(x, k + 1, y, beta);
    }
  }
}
