/** Gaussian elimination with partial pivoting, in place on an array of row
    references and a right-hand side. */
module Gauss {
  import opened LinearAlgebra
  import opened RealArith

  const PIVOT_FLOOR := 0.000000000001

  // ---------------------------------------------------------------------
  // What elimination keeps

  /** The first k diagonal entries were large enough to divide by. */
  ghost predicate PivotsOk(m: Matrix, k: nat)
    requires IsMatrix(m, |m|, |m|) && k <= |m|
  {
    forall p :: 0 <= p < k ==> Abs(m[p][p]) >= PIVOT_FLOOR
  }

  /** The first k columns are zero below the diagonal, but for those skipped for a tiny pivot. */
  ghost predicate Triangular(m: Matrix, k: nat)
    requires IsMatrix(m, |m|, |m|) && k <= |m|
  {
    forall p, j :: 0 <= j < k && j < p < |m| && Abs(m[j][j]) >= PIVOT_FLOOR ==> m[p][j] == 0.0
  }

  /** With usable pivots no column was skipped. */
  lemma ZeroBelow(m: Matrix, k: nat, p: nat)
    requires IsMatrix(m, |m|, |m|) && k <= |m| && p < |m| && Triangular(m, k) && PivotsOk(m, k)
    ensures forall j :: 0 <= j < k && j < p ==> m[p][j] == 0.0
  {
    forall j | 0 <= j < k && j < p
      ensures m[p][j] == 0.0
    {
      assert Abs(m[j][j]) >= PIVOT_FLOOR;
    }
  }

  /** y is zero at each of the first k columns that was skipped. */
  ghost predicate Vanishes(m: Matrix, k: nat, y: Vector)
    requires IsMatrix(m, |m|, |y|) && k <= |m| && |y| == |m|
  {
    forall j :: 0 <= j < k && Abs(m[j][j]) < PIVOT_FLOOR ==> y[j] == 0.0
  }

  /** Both systems have the same solutions among the vectors that vanish. */
  ghost predicate SameSolutions(m: Matrix, b: Vector, o: Matrix, ob: Vector, k: nat)
    requires IsMatrix(m, |m|, |m|) && IsMatrix(o, |m|, |m|) && |b| == |ob| == |m| && k <= |m|
  {
    forall y: Vector {:trigger Solves(m, b, y)} {:trigger Solves(o, ob, y)} ::
      |y| == |m| && Vanishes(m, k, y) ==> (Solves(m, b, y) <==> Solves(o, ob, y))
  }

  ghost predicate Kills(m: Matrix, k: nat, v: Vector)
    requires IsMatrix(m, |m|, |v|) && k <= |m|
  {
    forall p :: 0 <= p < k ==> Dot(m[p], v) == 0.0
  }

  /** On vectors that the first k rows send to zero, |M v| is still |O v|. */
  ghost predicate SameNorms(m: Matrix, o: Matrix, k: nat)
    requires IsMatrix(m, |m|, |m|) && IsMatrix(o, |m|, |m|) && k <= |m|
  {
    forall v: Vector {:trigger Kills(m, k, v)} {:trigger NormSq(o, v)} ::
      |v| == |m| && Kills(m, k, v) ==> NormSq(m, v) == NormSq(o, v)
  }

  ghost predicate Shapes(m: Matrix, b: Vector, o: Matrix, ob: Vector) {
    IsMatrix(m, |m|, |m|) && IsMatrix(o, |m|, |m|) && |b| == |ob| == |m|
  }

  /** The state after k columns have been eliminated or skipped. */
  ghost predicate Eliminated(m: Matrix, b: Vector, o: Matrix, ob: Vector, k: nat) {
    && Shapes(m, b, o, ob) && k <= |m|
    && Triangular(m, k)
    && SameSolutions(m, b, o, ob, k)
    && (PivotsOk(m, k) ==> SameNorms(m, o, k))
  }

  ghost function Swap<T>(s: seq<T>, i: nat, j: nat): (r: seq<T>)
    requires i < |s| && j < |s|
    ensures |r| == |s|
  {
    s[i := s[j]][j := s[i]]
  }

  lemma SwapSolves(m: Matrix, b: Vector, i: nat, j: nat, x: Vector)
    requires IsMatrix(m, |m|, |x|) && |b| == |m| && i < |m| && j < |m|
    requires Solves(m, b, x)
    ensures Solves(Swap(m, i, j), Swap(b, i, j), x)
  {
  }

  lemma SwapTwice<T>(s: seq<T>, i: nat, j: nat)
    requires i < |s| && j < |s|
    ensures Swap(Swap(s, i, j), i, j) == s
  {
  }

  lemma SwapNormSq(m: Matrix, i: nat, j: nat, v: Vector)
    requires IsMatrix(m, |m|, |v|) && i < |m| && j < |m|
    ensures NormSq(Swap(m, i, j), v) == NormSq(m, v)
  {
    NormSqUpdate(m, v, i, m[j], 0);
    NormSqUpdate(m[i := m[j]], v, j, m[i], 0);
  }

  lemma SwapSolvesIff(m: Matrix, b: Vector, i: nat, j: nat, y: Vector)
    requires IsMatrix(m, |m|, |y|) && |b| == |m| && i < |m| && j < |m|
    ensures Solves(Swap(m, i, j), Swap(b, i, j), y) <==> Solves(m, b, y)
  {
    hide Solves;
    SwapTwice(m, i, j);
    SwapTwice(b, i, j);
    if Solves(m, b, y) {
      SwapSolves(m, b, i, j, y);
    }
    if Solves(Swap(m, i, j), Swap(b, i, j), y) {
      SwapSolves(Swap(m, i, j), Swap(b, i, j), i, j, y);
    }
  }

  lemma SwapSameSolutions(m: Matrix, b: Vector, o: Matrix, ob: Vector, k: nat, r: nat)
    requires Shapes(m, b, o, ob) && k <= r < |m| && SameSolutions(m, b, o, ob, k)
    ensures SameSolutions(Swap(m, k, r), Swap(b, k, r), o, ob, k)
  {
    var m', b' := Swap(m, k, r), Swap(b, k, r);
    forall y: Vector | |y| == |m| && Vanishes(m', k, y)
      ensures Solves(m', b', y) <==> Solves(o, ob, y)
    {
      assert forall j :: 0 <= j < k ==> m'[j] == m[j];
      assert Vanishes(m, k, y);
      SwapSolvesIff(m, b, k, r, y);
    }
  }

  lemma SwapSameNorms(m: Matrix, o: Matrix, k: nat, r: nat)
    requires IsMatrix(m, |m|, |m|) && IsMatrix(o, |m|, |m|) && k <= r < |m| && SameNorms(m, o, k)
    ensures SameNorms(Swap(m, k, r), o, k)
  {
    var m' := Swap(m, k, r);
    forall v: Vector | |v| == |m| && Kills(m', k, v)
      ensures NormSq(m', v) == NormSq(o, v)
    {
      forall p | 0 <= p < k
        ensures Dot(m[p], v) == 0.0
      {
        assert m'[p] == m[p];
      }
      assert Kills(m, k, v);
      SwapNormSq(m, k, r, v);
    }
  }

  lemma SwapTriangular(m: Matrix, k: nat, r: nat)
    requires IsMatrix(m, |m|, |m|) && k <= r < |m| && Triangular(m, k)
    ensures IsMatrix(Swap(m, k, r), |m|, |m|) && Triangular(Swap(m, k, r), k)
  {
  }

  lemma SwapRows(m: Matrix, b: Vector, o: Matrix, ob: Vector, k: nat, r: nat)
    requires Eliminated(m, b, o, ob, k) && k <= r < |m|
    ensures Eliminated(Swap(m, k, r), Swap(b, k, r), o, ob, k)
  {
    hide SameSolutions, SameNorms, Triangular;
    SwapSameSolutions(m, b, o, ob, k, r);
    SwapTriangular(m, k, r);
    assert forall p :: 0 <= p < k ==> Swap(m, k, r)[p] == m[p];
    if PivotsOk(m, k) {
      SwapSameNorms(m, o, k, r);
    }
  }

  /** The new row k: untouched left of the pivot, zero at it, combined right of it. */
  ghost function ReducedRow(row: Vector, pivotRow: Vector, i: nat, c: real): (r: Vector)
    requires |row| == |pivotRow| && i < |row|
    ensures |r| == |row|
  {
    seq(|row|, j requires 0 <= j < |row| =>
      if j < i then row[j] else if j == i then 0.0 else row[j] + c * pivotRow[j])
  }

  lemma ReducedIsAxpy(row: Vector, pivotRow: Vector, i: nat, c: real)
    requires |row| == |pivotRow| && i < |row| && Times(c, pivotRow[i]) == -row[i]
    requires forall j :: 0 <= j < i ==> pivotRow[j] == 0.0
    ensures ReducedRow(row, pivotRow, i, c) == Axpy(row, c, pivotRow)
  {
    var r := ReducedRow(row, pivotRow, i, c);
    forall j | 0 <= j < |row|
      ensures r[j] == row[j] + c * pivotRow[j]
    {
      if j < i {
        assert c * pivotRow[j] == c * 0.0;
      }
    }
  }

  /** Reducing a row changes its product with y as adding c times the pivot row would, when each
      column left of the pivot is zero in the pivot row or in y. */
  lemma {:induction false} ReducedDot(row: Vector, pivotRow: Vector, i: nat, c: real, y: Vector, lo: nat)
    requires |row| == |pivotRow| == |y| && i < |row| && lo <= |row| && Times(c, pivotRow[i]) == -row[i]
    requires forall j :: 0 <= j < i ==> pivotRow[j] == 0.0 || y[j] == 0.0
    ensures DotFrom(ReducedRow(row, pivotRow, i, c), y, lo) == DotFrom(row, y, lo) + Times(c, DotFrom(pivotRow, y, lo))
    decreases |row| - lo
  {
    var r := ReducedRow(row, pivotRow, i, c);
    if lo < |row| {
      assert r[lo] == row[lo] + Times(c, pivotRow[lo]) || (r[lo] == row[lo] && (pivotRow[lo] == 0.0 || y[lo] == 0.0));
      hide ReducedRow, Times, DotFrom;
      ReducedDot(row, pivotRow, i, c, y, lo + 1);
      DotHead(r, y, lo);
      DotHead(row, y, lo);
      DotHead(pivotRow, y, lo);
      ReducedEntry(row[lo], pivotRow[lo], r[lo], c, y[lo], DotFrom(pivotRow, y, lo + 1));
    }
  }

  lemma ReducedEntry(a: real, p: real, r: real, c: real, y: real, rest: real)
    requires r == a + Times(c, p) || (r == a && (p == 0.0 || y == 0.0))
    ensures Times(r, y) + Times(c, rest) == Times(a, y) + Times(c, Times(p, y) + rest)
  {
  }

  /** Reducing equation k by equation i keeps y a solution or a non-solution. */
  lemma ReduceSolves(m: Matrix, b: Vector, i: nat, k: nat, c: real, y: Vector)
    requires IsMatrix(m, |m|, |y|) && |b| == |y| == |m| && i < k < |m| && Times(c, m[i][i]) == -m[k][i]
    requires forall j :: 0 <= j < i ==> m[i][j] == 0.0 || y[j] == 0.0
    ensures Solves(m[k := ReducedRow(m[k], m[i], i, c)], b[k := b[k] + Times(c, b[i])], y) <==> Solves(m, b, y)
  {
    hide ReducedRow, Times;
    var m', b' := m[k := ReducedRow(m[k], m[i], i, c)], b[k := b[k] + Times(c, b[i])];
    ReducedDot(m[k], m[i], i, c, y, 0);
    assert m'[i] == m[i] && b'[i] == b[i];
    if Solves(m', b', y) {
      assert Dot(m'[i], y) == b'[i];
      assert Dot(m'[k], y) == b'[k];
      forall p | 0 <= p < |m|
        ensures Dot(m[p], y) == b[p]
      {
        assert p != k ==> m'[p] == m[p] && b'[p] == b[p];
      }
    }
  }

  lemma AddPivotSameNorms(m: Matrix, o: Matrix, i: nat, k: nat, c: real)
    requires IsMatrix(m, |m|, |m|) && IsMatrix(o, |m|, |m|) && i < k < |m| && SameNorms(m, o, i + 1)
    ensures SameNorms(m[k := Axpy(m[k], c, m[i])], o, i + 1)
  {
    var row := Axpy(m[k], c, m[i]);
    var m' := m[k := row];
    forall v: Vector | |v| == |m| && Kills(m', i + 1, v)
      ensures NormSq(m', v) == NormSq(o, v)
    {
      forall p | 0 <= p < i + 1
        ensures Dot(m[p], v) == 0.0
      {
        assert m'[p] == m[p];
      }
      assert Kills(m, i + 1, v);
      DotAxpy(m[k], c, m[i], v, 0);
      NormSqUpdate(m, v, k, row, 0);
    }
  }

  lemma NormsOneMoreRow(m: Matrix, o: Matrix, k: nat)
    requires IsMatrix(m, |m|, |m|) && IsMatrix(o, |m|, |m|) && k < |m| && SameNorms(m, o, k)
    ensures SameNorms(m, o, k + 1)
  {
    forall v: Vector | |v| == |m| && Kills(m, k + 1, v)
      ensures NormSq(m, v) == NormSq(o, v)
    {
      assert Kills(m, k, v);
    }
  }

  // ---------------------------------------------------------------------
  // Why a well-conditioned system never meets a small pivot

  /** |O v|^2 >= n 10^-24 |v|^2 for every v. */
  ghost predicate WellConditioned(o: Matrix)
    requires IsMatrix(o, |o|, |o|)
  {
    forall v: Vector {:trigger NormSq(o, v)} ::
      |v| == |o| ==> NormSq(o, v) >= Times(Times(|o| as real, Sq(PIVOT_FLOOR)), Dot(v, v))
  }

  /** A vector with v[i] = 1 and nothing after it that the rows from `q` up to i kill. */
  lemma {:induction false} KilledVector(m: Matrix, i: nat, q: nat) returns (v: Vector)
    requires IsMatrix(m, |m|, |m|) && q <= i < |m|
    requires Triangular(m, i) && PivotsOk(m, i)
    ensures |v| == |m| && v[i] == 1.0 && forall j :: i < j < |m| ==> v[j] == 0.0
    ensures forall p :: q <= p < i ==> Dot(m[p], v) == 0.0
    ensures forall j :: 0 <= j < q ==> v[j] == 0.0
    decreases i - q
  {
    if q == i {
      v := seq(|m|, j => if j == i then 1.0 else 0.0);
    } else {
      var u := KilledVector(m, i, q + 1);
      var t := Quotient(-DotFrom(m[q], u, q + 1), m[q][q]);
      v := u[q := t];
      forall p | q <= p < i
        ensures Dot(m[p], v) == 0.0
      {
        ZeroBelow(m, i, p);
        if p > q {
          EntryIgnored(m[p], u, v, q);
        } else {
          EntryCancels(m[q], u, v, q);
        }
      }
    }
  }

  /** A row that is zero up to entry q does not see a change of that entry. */
  lemma EntryIgnored(row: Vector, u: Vector, v: Vector, q: nat)
    requires |row| == |u| == |v| && q < |row|
    requires forall j :: 0 <= j <= q ==> row[j] == 0.0
    requires forall j :: q < j < |row| ==> u[j] == v[j]
    ensures Dot(row, v) == Dot(row, u)
  {
    hide DotFrom;
    DotSkip(row, v, 0, q + 1);
    DotAgree(row, v, row, u, q + 1);
    DotSkip(row, u, 0, q + 1);
  }

  /** A row that starts at entry q is killed by the right choice of that entry. */
  lemma EntryCancels(row: Vector, u: Vector, v: Vector, q: nat)
    requires |row| == |u| == |v| && q < |row|
    requires forall j :: 0 <= j < q ==> row[j] == 0.0
    requires forall j :: q < j < |row| ==> u[j] == v[j]
    requires Times(row[q], v[q]) == -DotFrom(row, u, q + 1)
    ensures Dot(row, v) == 0.0
  {
    hide DotFrom, Times;
    DotSkip(row, v, 0, q);
    DotHead(row, v, q);
    DotAgree(row, v, row, u, q + 1);
    var t, rest := Times(row[q], v[q]), DotFrom(row, u, q + 1);
    assert Dot(row, v) == t + rest;
  }

  /** If column i holds nothing larger than `cap` on or below the diagonal, then
      n cap^2 is at least the conditioning bound; so the largest entry is no
      smaller than the pivot floor. */
  lemma LargePivotExists(m: Matrix, o: Matrix, i: nat, cap: real)
    requires IsMatrix(m, |m|, |m|) && IsMatrix(o, |m|, |m|) && i < |m|
    requires Triangular(m, i) && SameNorms(m, o, i) && PivotsOk(m, i) && WellConditioned(o)
    requires forall p :: i <= p < |m| ==> Abs(m[p][i]) <= cap
    ensures cap >= PIVOT_FLOOR
  {
    var v := KilledVector(m, i, 0);
    assert Kills(m, i, v);
    assert Abs(m[i][i]) <= cap;
    KilledNormBound(m, i, v, cap);
    ConditionedNorm(o, v, i);
    assert NormSq(m, v) == NormSq(o, v);
    FloorFromNorm(|m| as real, Dot(v, v), NormSq(o, v), cap);
  }

  lemma ConditionedNorm(o: Matrix, v: Vector, i: nat)
    requires IsMatrix(o, |o|, |o|) && WellConditioned(o) && |v| == |o| && i < |o| && v[i] == 1.0
    ensures NormSq(o, v) >= Times(Times(|o| as real, Sq(PIVOT_FLOOR)), Dot(v, v))
    ensures Dot(v, v) >= 1.0
  {
    DotSelfNonNegative(v, 0);
    assert Sq(v[i]) == 1.0;
  }

  lemma KilledNormBound(m: Matrix, i: nat, v: Vector, cap: real)
    requires IsMatrix(m, |m|, |m|) && i < |m| && Triangular(m, i) && PivotsOk(m, i)
    requires |v| == |m| && v[i] == 1.0 && forall j :: i < j < |m| ==> v[j] == 0.0
    requires Kills(m, i, v) && cap >= 0.0
    requires forall p :: i <= p < |m| ==> Abs(m[p][i]) <= cap
    ensures NormSq(m, v) <= Times(|m| as real, Sq(cap))
  {
    forall p | 0 <= p < |m|
      ensures Sq(Dot(m[p], v)) <= Sq(cap)
    {
      RowOnKilledVector(m, i, v, p);
      SquareAbs(Dot(m[p], v), cap);
    }
    SqNonNegative(cap);
    NormSqBound(m, v, Sq(cap), 0);
  }

  lemma RowOnKilledVector(m: Matrix, i: nat, v: Vector, p: nat)
    requires IsMatrix(m, |m|, |m|) && i < |m| && Triangular(m, i) && PivotsOk(m, i) && p < |m|
    requires |v| == |m| && v[i] == 1.0 && forall j :: i < j < |m| ==> v[j] == 0.0
    requires Kills(m, i, v)
    ensures Dot(m[p], v) == if p < i then 0.0 else m[p][i]
  {
    if p >= i {
      ZeroBelow(m, i, p);
      DotSkip(m[p], v, 0, i);
      DotSkip(m[p], v, i + 1, |m|);
      assert m[p][i] * 1.0 == m[p][i];
    }
  }

  lemma FloorFromNorm(n: real, vv: real, norm: real, cap: real)
    requires n > 0.0 && vv >= 1.0 && cap >= 0.0
    requires Times(n, Sq(cap)) >= norm >= Times(Times(n, Sq(PIVOT_FLOOR)), vv)
    ensures cap >= PIVOT_FLOOR
  {
    var f := Sq(PIVOT_FLOOR);
    SqPositive(PIVOT_FLOOR);
    MulPositive(n, f);
    MulMonotone(1.0, vv, Times(n, f));
    assert Times(Times(n, f), 1.0) == Times(n, f);
    CancelFactor(n, f, Sq(cap));
    SqOrder(PIVOT_FLOOR, cap);
  }

  // ---------------------------------------------------------------------
  // One column, as a function

  /** c[k] is the multiple of row i that clears the entry of row k in column i. */
  ghost predicate Multipliers(m: Matrix, i: nat, c: Vector)
    requires IsMatrix(m, |m|, |m|) && i < |m|
  {
    |c| == |m| && forall k :: i < k < |m| ==> Times(c[k], m[i][i]) == -m[k][i]
  }

  /** Rows i + 1 up to k have been reduced by the pivot row i. */
  ghost function ColumnDone(m: Matrix, b: Vector, i: nat, c: Vector, k: nat): (r: (Matrix, Vector))
    requires IsMatrix(m, |m|, |m|) && |b| == |c| == |m| && i < k <= |m|
    ensures IsMatrix(r.0, |m|, |m|) && |r.1| == |m|
    ensures forall p :: 0 <= p <= i || k <= p < |m| ==> r.0[p] == m[p] && r.1[p] == b[p]
    ensures forall p, j :: i < p < |m| && 0 <= j < i ==> r.0[p][j] == m[p][j]
    ensures forall p :: i < p < k ==> r.0[p][i] == 0.0
    decreases k
  {
    if k == i + 1 then (m, b)
    else
      var (m', b') := ColumnDone(m, b, i, c, k - 1);
      (m'[k - 1 := ReducedRow(m[k - 1], m[i], i, c[k - 1])], b'[k - 1 := b[k - 1] + Times(c[k - 1], b[i])])
  }

  lemma {:induction false} ColumnDoneSolves(m: Matrix, b: Vector, i: nat, c: Vector, k: nat, y: Vector)
    requires IsMatrix(m, |m|, |y|) && |b| == |y| == |m| && i < k <= |m| && Multipliers(m, i, c)
    requires forall j :: 0 <= j < i ==> m[i][j] == 0.0 || y[j] == 0.0
    ensures var r := ColumnDone(m, b, i, c, k);
            Solves(r.0, r.1, y) <==> Solves(m, b, y)
    decreases k
  {
    hide Solves, ReducedRow;
    if k > i + 1 {
      ColumnDoneSolves(m, b, i, c, k - 1, y);
      var r := ColumnDone(m, b, i, c, k - 1);
      ReduceSolves(r.0, r.1, i, k - 1, c[k - 1], y);
    }
  }

  lemma {:induction false} ColumnDoneNorms(m: Matrix, b: Vector, o: Matrix, i: nat, c: Vector, k: nat)
    requires IsMatrix(m, |m|, |m|) && IsMatrix(o, |m|, |m|) && |b| == |m| && i < k <= |m| && Multipliers(m, i, c)
    requires forall j :: 0 <= j < i ==> m[i][j] == 0.0
    requires SameNorms(m, o, i)
    ensures SameNorms(ColumnDone(m, b, i, c, k).0, o, i + 1)
    decreases k
  {
    hide SameNorms, ReducedRow;
    if k == i + 1 {
      NormsOneMoreRow(m, o, i);
    } else {
      ColumnDoneNorms(m, b, o, i, c, k - 1);
      var r := ColumnDone(m, b, i, c, k - 1).0;
      ReducedIsAxpy(m[k - 1], m[i], i, c[k - 1]);
      AddPivotSameNorms(r, o, i, k - 1, c[k - 1]);
    }
  }

  lemma ColumnEliminated(m: Matrix, b: Vector, o: Matrix, ob: Vector, i: nat, c: Vector)
    requires Eliminated(m, b, o, ob, i) && i < |m| && Multipliers(m, i, c) && Abs(m[i][i]) >= PIVOT_FLOOR
    ensures var r := ColumnDone(m, b, i, c, |m|);
            Eliminated(r.0, r.1, o, ob, i + 1)
  {
    hide ColumnDone, SameNorms, Solves;
    var r := ColumnDone(m, b, i, c, |m|);
    assert forall j :: 0 <= j <= i ==> r.0[j] == m[j];
    assert Triangular(r.0, i + 1) by {
      forall p, j | 0 <= j < i + 1 && j < p < |m| && Abs(r.0[j][j]) >= PIVOT_FLOOR
        ensures r.0[p][j] == 0.0
      {
        assert m[p][j] == 0.0 || j == i;
      }
    }
    forall y: Vector | |y| == |m| && Vanishes(r.0, i + 1, y)
      ensures Solves(r.0, r.1, y) <==> Solves(o, ob, y)
    {
      assert forall j :: 0 <= j < i && Abs(m[j][j]) < PIVOT_FLOOR ==> r.0[j] == m[j] && y[j] == 0.0;
      assert Vanishes(m, i, y);
      ColumnDoneSolves(m, b, i, c, |m|, y);
    }
    if PivotsOk(r.0, i + 1) {
      assert forall j :: 0 <= j < i ==> Abs(r.0[j][j]) >= PIVOT_FLOOR && r.0[j] == m[j];
      assert PivotsOk(m, i);
      ZeroBelow(m, i, i);
      ColumnDoneNorms(m, b, o, i, c, |m|);
    }
  }

  /** A skipped column only narrows the vectors considered. */
  lemma ColumnSkipped(m: Matrix, b: Vector, o: Matrix, ob: Vector, i: nat)
    requires Eliminated(m, b, o, ob, i) && i < |m| && Abs(m[i][i]) < PIVOT_FLOOR
    ensures Eliminated(m, b, o, ob, i + 1)
  {
    hide Solves, SameNorms;
    assert Triangular(m, i + 1) && !PivotsOk(m, i + 1);
    forall y: Vector | |y| == |m| && Vanishes(m, i + 1, y)
      ensures Solves(m, b, y) <==> Solves(o, ob, y)
    {
      assert Vanishes(m, i, y);
    }
  }

  // ---------------------------------------------------------------------
  // Back substitution

  /** x is what back substitution computes from entry `lo` on: zero where the
      pivot is too small, and otherwise what makes the equation of that row hold
      for the entries on and right of the diagonal. */
  ghost predicate BackSubstituted(m: Matrix, b: Vector, x: Vector, lo: nat)
    requires IsMatrix(m, |m|, |m|) && |b| == |x| == |m|
  {
    forall i :: lo <= i < |m| ==> BackEntry(m[i], b[i], x, i, x[i])
  }

  ghost predicate BackEntry(row: Vector, rhs: real, x: Vector, i: nat, xi: real)
    requires |row| == |x| && i < |row|
  {
    if Abs(row[i]) < PIVOT_FLOOR then xi == 0.0 else Times(xi, row[i]) == rhs - DotFrom(row, x, i + 1)
  }

  lemma BackRowSolves(row: Vector, x: Vector, i: nat, rhs: real)
    requires |row| == |x| && i < |row| && BackEntry(row, rhs, x, i, x[i]) && Abs(row[i]) >= PIVOT_FLOOR
    requires forall j :: 0 <= j < i ==> row[j] == 0.0
    ensures Dot(row, x) == rhs
  {
    hide DotFrom;
    DotSkip(row, x, 0, i);
    DotHead(row, x, i);
  }

  lemma BackSubstitutedSolves(m: Matrix, b: Vector, x: Vector)
    requires IsMatrix(m, |m|, |m|) && |b| == |x| == |m|
    requires Triangular(m, |m|) && PivotsOk(m, |m|) && BackSubstituted(m, b, x, 0)
    ensures Solves(m, b, x)
  {
    forall i | 0 <= i < |m|
      ensures Dot(m[i], x) == b[i]
    {
      ZeroBelow(m, |m|, i);
      BackRowSolves(m[i], x, i, b[i]);
    }
  }

  /** Back substitution reproduces every solution that vanishes at the tiny pivots. */
  lemma {:induction false} BackReproduces(m: Matrix, b: Vector, x: Vector, y: Vector, i: nat)
    requires IsMatrix(m, |m|, |m|) && |b| == |x| == |y| == |m| && i <= |m|
    requires Triangular(m, |m|) && BackSubstituted(m, b, x, 0) && Solves(m, b, y) && Vanishes(m, |m|, y)
    ensures forall k :: i <= k < |m| ==> x[k] == y[k]
    decreases |m| - i
  {
    if i < |m| {
      BackReproduces(m, b, x, y, i + 1);
      assert BackEntry(m[i], b[i], x, i, x[i]);
      if Abs(m[i][i]) >= PIVOT_FLOOR {
        assert Dot(m[i], y) == b[i];
        EntryDetermined(m[i], b[i], x, y, i);
      }
    }
  }

  lemma EntryDetermined(row: Vector, rhs: real, x: Vector, y: Vector, i: nat)
    requires |row| == |x| == |y| && i < |row| && Abs(row[i]) >= PIVOT_FLOOR
    requires forall j :: 0 <= j < i ==> row[j] == 0.0 || y[j] == 0.0
    requires forall j :: i < j < |row| ==> x[j] == y[j]
    requires Dot(row, y) == rhs && BackEntry(row, rhs, x, i, x[i])
    ensures x[i] == y[i]
  {
    hide DotFrom, Times;
    DotSkip(row, y, 0, i);
    DotHead(row, y, i);
    DotAgree(row, x, row, y, i + 1);
    TimesSwapped(x[i], row[i]);
    CancelPivot(row[i], x[i], y[i]);
  }

  lemma TimesSwapped(a: real, b: real)
    ensures Times(a, b) == Times(b, a)
  {
  }

  lemma CancelPivot(a: real, x: real, y: real)
    requires a != 0.0 && Times(a, x) == Times(a, y)
    ensures x == y
  {
    assert (a * x) / a == x;
  }

  /** A vanishing solution of a triangular system is what back substitution computes ... */
  lemma VanishingIsBackSubstituted(m: Matrix, b: Vector, y: Vector)
    requires IsMatrix(m, |m|, |m|) && |b| == |y| == |m|
    requires Triangular(m, |m|) && Solves(m, b, y) && Vanishes(m, |m|, y)
    ensures BackSubstituted(m, b, y, 0)
  {
    hide DotFrom, Times;
    forall i | 0 <= i < |m|
      ensures BackEntry(m[i], b[i], y, i, y[i])
    {
      assert Dot(m[i], y) == b[i];
      DotSkip(m[i], y, 0, i);
      DotHead(m[i], y, i);
      TimesSwapped(y[i], m[i][i]);
    }
  }

  /** ... so a triangular system has at most one of them. */
  lemma TriangularUnique(m: Matrix, b: Vector, x: Vector, y: Vector)
    requires IsMatrix(m, |m|, |m|) && |b| == |x| == |y| == |m| && Triangular(m, |m|)
    requires Solves(m, b, x) && Vanishes(m, |m|, x) && Solves(m, b, y) && Vanishes(m, |m|, y)
    ensures x == y
  {
    VanishingIsBackSubstituted(m, b, x);
    BackReproduces(m, b, x, y, 0);
  }

  // ---------------------------------------------------------------------
  // Exactly when the result is a solution

  /** m, b is what elimination of o, ob ends with, and x what back substitution then computes. */
  ghost predicate Finished(m: Matrix, b: Vector, o: Matrix, ob: Vector, x: Vector) {
    Eliminated(m, b, o, ob, |m|) && |x| == |m| && BackSubstituted(m, b, x, 0)
  }

  /** y solves the original system and is zero wherever a pivot was too small. */
  ghost predicate VanishingSolution(m: Matrix, o: Matrix, ob: Vector, y: Vector)
    requires IsMatrix(m, |m|, |m|) && IsMatrix(o, |m|, |m|) && |ob| == |m|
  {
    |y| == |m| && Solves(o, ob, y) && Vanishes(m, |m|, y)
  }

  /** The result is a given solution exactly when that solution is zero at every tiny pivot. */
  lemma ResultIsSolutionIff(m: Matrix, b: Vector, o: Matrix, ob: Vector, x: Vector, y: Vector)
    requires Finished(m, b, o, ob, x) && |y| == |m| && Solves(o, ob, y)
    ensures x == y <==> Vanishes(m, |m|, y)
  {
    assert forall i :: 0 <= i < |m| ==> BackEntry(m[i], b[i], x, i, x[i]);
    if Vanishes(m, |m|, y) {
      assert Solves(m, b, y);
      BackReproduces(m, b, x, y, 0);
    }
  }

  /** So it solves the system exactly when some solution vanishes there. */
  lemma ResultSolvesIff(m: Matrix, b: Vector, o: Matrix, ob: Vector, x: Vector)
    requires Finished(m, b, o, ob, x)
    ensures Solves(o, ob, x) <==> exists y :: VanishingSolution(m, o, ob, y)
  {
    if Solves(o, ob, x) {
      ResultIsSolutionIff(m, b, o, ob, x, x);
      assert VanishingSolution(m, o, ob, x);
    }
    if y :| VanishingSolution(m, o, ob, y) {
      ResultIsSolutionIff(m, b, o, ob, x, y);
    }
  }

  /** x is the one solution. */
  ghost predicate UniqueSolution(m: Matrix, b: Vector, x: Vector)
    requires IsMatrix(m, |m|, |x|) && |b| == |m|
  {
    Solves(m, b, x) && forall y: Vector {:trigger Solves(m, b, y)} :: |y| == |x| && Solves(m, b, y) ==> y == x
  }

  /** A system of any size whose only solution is not zero at some tiny pivot is not solved. */
  lemma SmallPivotMisses(m: Matrix, b: Vector, o: Matrix, ob: Vector, x: Vector, y: Vector, i: nat)
    requires Finished(m, b, o, ob, x) && |y| == |m| && UniqueSolution(o, ob, y)
    requires i < |m| && Abs(m[i][i]) < PIVOT_FLOOR && y[i] != 0.0
    ensures !Solves(o, ob, x)
  {
    if Solves(o, ob, x) {
      ResultIsSolutionIff(m, b, o, ob, x, y);
    }
  }

  /** a times the identity. */
  ghost function Diagonal(n: nat, a: real): (r: Matrix)
    ensures IsMatrix(r, n, n)
    ensures forall p, j :: 0 <= p < n && 0 <= j < n ==> r[p][j] == if p == j then a else 0.0
  {
    seq(n, p => seq(n, j => if p == j then a else 0.0))
  }

  lemma DiagonalDot(n: nat, a: real, y: Vector, p: nat)
    requires |y| == n && p < n
    ensures Dot(Diagonal(n, a)[p], y) == Times(a, y[p])
  {
    var row := Diagonal(n, a)[p];
    DotSkip(row, y, 0, p);
    DotHead(row, y, p);
    DotSkip(row, y, p + 1, n);
  }

  lemma DiagonalUnique(n: nat, a: real, ob: Vector, y: Vector)
    requires |ob| == |y| == n && a != 0.0 && forall p :: 0 <= p < n ==> Times(a, y[p]) == ob[p]
    ensures UniqueSolution(Diagonal(n, a), ob, y)
  {
    hide Diagonal, DotFrom, Times;
    var o := Diagonal(n, a);
    forall p | 0 <= p < n
      ensures Dot(o[p], y) == ob[p]
    {
      DiagonalDot(n, a, y, p);
    }
    forall z: Vector | |z| == n && Solves(o, ob, z)
      ensures z == y
    {
      forall p | 0 <= p < n
        ensures z[p] == y[p]
      {
        assert Dot(o[p], z) == ob[p];
        DiagonalDot(n, a, z, p);
        CancelPivot(a, z[p], y[p]);
      }
    }
  }

  /** No entry is large enough to divide by. */
  ghost predicate AllTiny(m: Matrix)
    requires IsMatrix(m, |m|, |m|)
  {
    forall p, j :: 0 <= p < |m| && 0 <= j < |m| ==> Abs(m[p][j]) < PIVOT_FLOOR
  }

  ghost predicate AllZero(x: Vector) {
    forall p :: 0 <= p < |x| ==> x[p] == 0.0
  }

  lemma ZerosSolve(o: Matrix, ob: Vector, x: Vector)
    requires IsMatrix(o, |o|, |o|) && |ob| == |x| == |o| && AllZero(x)
    ensures Solves(o, ob, x) <==> AllZero(ob)
  {
    forall p | 0 <= p < |o|
      ensures Dot(o[p], x) == 0.0
    {
      DotSkip(o[p], x, 0, |o|);
    }
  }

  /** Where every entry is tiny, back substitution returns zeros. */
  lemma TinyResult(m: Matrix, b: Vector, x: Vector)
    requires IsMatrix(m, |m|, |m|) && |b| == |x| == |m| && AllTiny(m) && BackSubstituted(m, b, x, 0)
    ensures AllZero(x)
  {
    forall p | 0 <= p < |x|
      ensures x[p] == 0.0
    {
      assert BackEntry(m[p], b[p], x, p, x[p]);
    }
  }

  /** There are such systems of every size with one solution: with a tiny diagonal nothing is
      exchanged or eliminated, and the zeros returned are that solution only when the right-hand
      side is zero. */
  lemma TinyDiagonalMisses(n: nat, a: real, ob: Vector, y: Vector, x: Vector)
    requires |ob| == |y| == n && 0.0 < Abs(a) < PIVOT_FLOOR
    requires forall p :: 0 <= p < n ==> Times(a, y[p]) == ob[p]
    requires |x| == n && BackSubstituted(Diagonal(n, a), ob, x, 0)
    ensures AllTiny(Diagonal(n, a)) && Finished(Diagonal(n, a), ob, Diagonal(n, a), ob, x)
    ensures UniqueSolution(Diagonal(n, a), ob, y)
    ensures Solves(Diagonal(n, a), ob, x) <==> forall p :: 0 <= p < n ==> ob[p] == 0.0
  {
    var o := Diagonal(n, a);
    DiagonalUnique(n, a, ob, y);
    TinyResult(o, ob, x);
    ZerosSolve(o, ob, x);
    assert PivotsOk(o, n) ==> n == 0 by {
      assert n > 0 ==> Abs(o[0][0]) < PIVOT_FLOOR;
    }
  }

  // ---------------------------------------------------------------------
  // The in-place algorithm

  /** n rows of length n and a right-hand side, none of them sharing storage. */
  ghost predicate System(a: array<array<real>>, b: array<real>)
    reads a
  {
    && a.Length == b.Length
    && (forall k :: 0 <= k < a.Length ==> a[k].Length == a.Length && a[k] != b)
    && (forall k, l :: 0 <= k < l < a.Length ==> a[k] != a[l])
  }

  ghost function Rows(a: array<array<real>>): (r: Matrix)
    reads a, a[..]
    ensures |r| == a.Length
  {
    seq(a.Length, k requires 0 <= k < a.Length reads a, a[..] => a[k][..])
  }

  method FindPivot(a: array<array<real>>, b: array<real>, i: nat) returns (maxRow: nat)
    requires System(a, b) && i < a.Length
    ensures i <= maxRow < a.Length
    ensures forall k :: i <= k < a.Length ==> Abs(a[k][i]) <= Abs(a[maxRow][i])
  {
    var maxEl := Abs(a[i][i]);
    maxRow := i;
    for k := i + 1 to a.Length
      invariant i <= maxRow < k && maxEl == Abs(a[maxRow][i])
      invariant forall l :: i <= l < k ==> Abs(a[l][i]) <= maxEl
    {
      if Abs(a[k][i]) > maxEl {
        maxEl := Abs(a[k][i]);
        maxRow := k;
      }
    }
  }

  method ReduceRow(row: array<real>, pivotRow: array<real>, i: nat, c: real)
    requires row != pivotRow && row.Length == pivotRow.Length && i < row.Length
    modifies row
    ensures row[..] == ReducedRow(old(row[..]), pivotRow[..], i, c)
  {
    for j := i to row.Length
      invariant forall l :: 0 <= l < j ==> row[l] == ReducedRow(old(row[..]), pivotRow[..], i, c)[l]
      invariant forall l :: j <= l < row.Length ==> row[l] == old(row[l])
    {
      if i == j {
        row[j] := 0.0;
      } else {
        row[j] := row[j] + c * pivotRow[j];
      }
    }
  }

  /** Reducing row k changes that row and its right-hand side only. */
  method EliminateRow(a: array<array<real>>, b: array<real>, i: nat, k: nat) returns (c: real)
    requires System(a, b) && i < k < a.Length && a[i][i] != 0.0
    modifies b, a[k]
    ensures Times(c, old(a[i][i])) == -old(a[k][i])
    ensures Rows(a) == old(Rows(a))[k := ReducedRow(old(a[k][..]), old(a[i][..]), i, c)]
    ensures b[..] == old(b[..])[k := old(b[k]) + Times(c, old(b[i]))]
  {
    hide ReducedRow;
    ghost var m, mb := Rows(a), b[..];
    assert m[k] == a[k][..] && m[i] == a[i][..];
    c := Divide(-a[k][i], a[i][i]);
    ReduceRow(a[k], a[i], i, c);
    assert Rows(a) == m[k := ReducedRow(m[k], m[i], i, c)] by {
      assert forall l :: 0 <= l < a.Length && l != k ==> a[l][..] == m[l];
    }
    assert Times(c, mb[i]) == c * b[i];
    b[k] := b[k] + c * b[i];
    assert b[..] == mb[k := mb[k] + Times(c, mb[i])];
  }

  /** The loop over the rows below the pivot; c records the multipliers used. */
  method EliminateColumn(a: array<array<real>>, b: array<real>, i: nat) returns (ghost c: Vector)
    requires System(a, b) && i < a.Length
    modifies b, a[..]
    ensures unchanged(a) && System(a, b) && |c| == a.Length
    ensures Abs(old(a[i][i])) < PIVOT_FLOOR ==> Rows(a) == old(Rows(a)) && b[..] == old(b[..])
    ensures Abs(old(a[i][i])) >= PIVOT_FLOOR ==>
              Multipliers(old(Rows(a)), i, c) &&
              (Rows(a), b[..]) == ColumnDone(old(Rows(a)), old(b[..]), i, c, a.Length)
  {
    hide ReducedRow, Times, ColumnDone;
    ghost var m, mb := Rows(a), b[..];
    c := seq(a.Length, _ => 0.0);
    ColumnDoneStart(m, mb, i, c);
    assert a[i][..] == m[i];
    for k := i + 1 to a.Length
      invariant unchanged(a) && |c| == a.Length
      invariant a[i][i] == m[i][i]
      invariant Abs(m[i][i]) < PIVOT_FLOOR ==> Rows(a) == m && b[..] == mb
      invariant Abs(m[i][i]) >= PIVOT_FLOOR ==>
                  (forall l :: i < l < k ==> Times(c[l], m[i][i]) == -m[l][i]) &&
                  (Rows(a), b[..]) == ColumnDone(m, mb, i, c, k)
    {
      if Abs(a[i][i]) < PIVOT_FLOOR {
        continue;
      }
      ghost var r, rb := Rows(a), b[..];
      assert r[i] == m[i] == a[i][..] && r[k] == m[k] == a[k][..];
      assert rb[i] == mb[i] && rb[k] == mb[k];
      var factor := EliminateRow(a, b, i, k);
      ColumnDoneStep(m, mb, i, c, k, factor);
      c := c[k := factor];
      assert Rows(a)[i] == a[i][..];
    }
  }

  /** Only the multipliers of the rows already done matter. */
  lemma {:induction false} ColumnDoneAgree(m: Matrix, b: Vector, i: nat, c: Vector, d: Vector, k: nat)
    requires IsMatrix(m, |m|, |m|) && |b| == |c| == |d| == |m| && i < k <= |m|
    requires forall l :: i < l < k ==> c[l] == d[l]
    ensures ColumnDone(m, b, i, c, k) == ColumnDone(m, b, i, d, k)
    decreases k
  {
    if k > i + 1 {
      ColumnDoneAgree(m, b, i, c, d, k - 1);
    }
  }

  lemma ColumnDoneStart(m: Matrix, b: Vector, i: nat, c: Vector)
    requires IsMatrix(m, |m|, |m|) && |b| == |c| == |m| && i < |m|
    ensures ColumnDone(m, b, i, c, i + 1) == (m, b)
  {
  }

  lemma ColumnDoneStep(m: Matrix, b: Vector, i: nat, c: Vector, k: nat, factor: real)
    requires IsMatrix(m, |m|, |m|) && |b| == |c| == |m| && i < k < |m|
    ensures var r := ColumnDone(m, b, i, c, k);
            ColumnDone(m, b, i, c[k := factor], k + 1) ==
            (r.0[k := ReducedRow(m[k], m[i], i, factor)], r.1[k := b[k] + Times(factor, b[i])])
  {
    ColumnDoneAgree(m, b, i, c, c[k := factor], k);
  }

  /** Subtracting x[i] times column i from the right-hand sides above row i. */
  method SubtractColumn(a: array<array<real>>, b: array<real>, i: nat, xi: real)
    requires System(a, b) && i < a.Length
    modifies b
    ensures forall l :: 0 <= l < i ==> b[l] == old(b[l]) - a[l][i] * xi
    ensures forall l :: i <= l < b.Length ==> b[l] == old(b[l])
  {
    for k := i downto 0
      invariant forall l :: 0 <= l < a.Length ==> a[l][i] == old(a[l][i])
      invariant forall l :: k <= l < i ==> b[l] == old(b[l]) - a[l][i] * xi
      invariant forall l :: 0 <= l < k || i <= l < b.Length ==> b[l] == old(b[l])
    {
      b[k] := b[k] - a[k][i] * xi;
    }
  }

  /** What is left of the right-hand sides above row i. */
  ghost predicate Remaining(m: Matrix, b: Vector, cur: Vector, x: Vector, i: nat)
    requires IsMatrix(m, |m|, |m|) && |b| == |cur| == |x| == |m| && i <= |m|
  {
    forall k :: 0 <= k < i ==> cur[k] == b[k] - DotFrom(m[k], x, i)
  }

  lemma NothingSubtracted(m: Matrix, b: Vector, x: Vector)
    requires IsMatrix(m, |m|, |m|) && |b| == |x| == |m|
    ensures Remaining(m, b, b, x, |m|) && BackSubstituted(m, b, x, |m|)
  {
  }

  /** The right-hand side left for row i is what the entry to be chosen must match. */
  lemma BackEntryFrom(m: Matrix, b: Vector, cur: Vector, x: Vector, i: nat, xi: real)
    requires IsMatrix(m, |m|, |m|) && |b| == |cur| == |x| == |m| && i < |m| && Remaining(m, b, cur, x, i + 1)
    requires if Abs(m[i][i]) < PIVOT_FLOOR then xi == 0.0 else Times(xi, m[i][i]) == cur[i]
    ensures BackEntry(m[i], b[i], x, i, xi)
  {
  }

  /** One step of back substitution: fix entry i, subtract its column above. */
  method BackStep(a: array<array<real>>, b: array<real>, x: array<real>, i: nat, ghost mb: Vector)
    requires System(a, b) && x.Length == a.Length && i < a.Length && |mb| == a.Length
    requires x != b && forall k :: 0 <= k < a.Length ==> a[k] != x
    requires BackSubstituted(Rows(a), mb, x[..], i + 1) && Remaining(Rows(a), mb, b[..], x[..], i + 1)
    modifies b, x
    ensures Rows(a) == old(Rows(a))
    ensures BackSubstituted(Rows(a), mb, x[..], i) && Remaining(Rows(a), mb, b[..], x[..], i)
  {
    hide DotFrom, BackEntry, BackSubstituted, Remaining;
    ghost var m, xs, cur := Rows(a), x[..], b[..];
    assert a[i][..] == m[i];
    if Abs(a[i][i]) < PIVOT_FLOOR {
      x[i] := 0.0;
      BackEntryFrom(m, mb, cur, xs, i, x[i]);
    } else {
      x[i] := Divide(b[i], a[i][i]);
      BackEntryFrom(m, mb, cur, xs, i, x[i]);
      SubtractColumn(a, b, i, x[i]);
    }
    assert Rows(a) == m;
    assert forall k :: 0 <= k < i ==> a[k][i] == m[k][i];
    StepBack(m, mb, cur, b[..], xs, x[..], i);
  }

  method BackSubstitute(a: array<array<real>>, b: array<real>) returns (x: array<real>)
    requires System(a, b)
    modifies b
    ensures fresh(x) && x.Length == a.Length
    ensures Rows(a) == old(Rows(a)) && BackSubstituted(Rows(a), old(b[..]), x[..], 0)
  {
    hide BackSubstituted, Remaining;
    var n := b.Length;
    x := new real[n](_ => 0.0);
    ghost var mb := b[..];
    NothingSubtracted(Rows(a), mb, x[..]);
    for i := n downto 0
      invariant Rows(a) == old(Rows(a))
      invariant BackSubstituted(Rows(a), mb, x[..], i) && Remaining(Rows(a), mb, b[..], x[..], i)
    {
      BackStep(a, b, x, i, mb);
    }
  }

  /** Setting x[i] leaves the sums over later entries alone. */
  lemma StepBack(m: Matrix, b: Vector, cur: Vector, cur': Vector, x: Vector, y: Vector, i: nat)
    requires IsMatrix(m, |m|, |m|) && |b| == |x| == |y| == |cur| == |cur'| == |m| && i < |m|
    requires forall k :: 0 <= k < |m| && k != i ==> y[k] == x[k]
    requires BackSubstituted(m, b, x, i + 1) && Remaining(m, b, cur, x, i + 1)
    requires BackEntry(m[i], b[i], x, i, y[i])
    requires forall k :: 0 <= k < i ==> cur'[k] == cur[k] - m[k][i] * y[i]
    ensures BackSubstituted(m, b, y, i) && Remaining(m, b, cur', y, i)
  {
    forall k | i <= k < |m|
      ensures DotFrom(m[k], y, k + 1) == DotFrom(m[k], x, k + 1)
    {
      DotAgree(m[k], y, m[k], x, k + 1);
    }
    forall k | 0 <= k < i
      ensures cur'[k] == b[k] - DotFrom(m[k], y, i)
    {
      DotAgree(m[k], y, m[k], x, i + 1);
    }
  }

  /** With usable pivots every vector vanishes trivially, and the result is the one solution. */
  lemma UniqueResult(m: Matrix, b: Vector, o: Matrix, ob: Vector, x: Vector)
    requires Finished(m, b, o, ob, x) && PivotsOk(m, |m|)
    ensures UniqueSolution(o, ob, x)
  {
    BackSubstitutedSolves(m, b, x);
    assert Vanishes(m, |m|, x);
    assert Solves(o, ob, x);
    forall y: Vector | |y| == |x| && Solves(o, ob, y)
      ensures y == x
    {
      ResultIsSolutionIff(m, b, o, ob, x, y);
    }
  }

  /** One round of the outer loop: choose the pivot row, swap it up, eliminate. */
  lemma RoundKeeps(m: Matrix, b: Vector, o: Matrix, ob: Vector, i: nat, r: nat, c: Vector,
                   m': Matrix, b': Vector)
    requires Shapes(m, b, o, ob) && i <= r < |m| && |c| == |m| && Shapes(m', b', o, ob)
    requires forall k :: i <= k < |m| ==> Abs(m[k][i]) <= Abs(m[r][i])
    requires var s, sb := Swap(m, i, r), Swap(b, i, r);
             if Abs(m[r][i]) < PIVOT_FLOOR then m' == s && b' == sb
             else Multipliers(s, i, c) && (m', b') == ColumnDone(s, sb, i, c, |m|)
    requires Eliminated(m, b, o, ob, i)
    requires WellConditioned(o) ==> PivotsOk(m, i)
    ensures Eliminated(m', b', o, ob, i + 1)
    ensures WellConditioned(o) ==> PivotsOk(m', i + 1)
  {
    hide SameSolutions, SameNorms, WellConditioned, Multipliers, ColumnDone;
    var s, sb := Swap(m, i, r), Swap(b, i, r);
    assert s[i][i] == m[r][i];
    assert forall p :: 0 <= p <= i ==> m'[p] == s[p];
    assert forall p :: 0 <= p < i ==> m'[p] == m[p];
    assert PivotsOk(m', i + 1) <==> PivotsOk(m, i) && Abs(m[r][i]) >= PIVOT_FLOOR;
    SwapRows(m, b, o, ob, i, r);
    if Abs(m[r][i]) >= PIVOT_FLOOR {
      ColumnEliminated(s, sb, o, ob, i, c);
    } else {
      ColumnSkipped(s, sb, o, ob, i);
    }
    if WellConditioned(o) {
      LargePivotExists(m, o, i, Abs(m[r][i]));
    }
  }

  /** Exchanges two row references and their right-hand sides. */
  method SwapRowReferences(a: array<array<real>>, b: array<real>, i: nat, j: nat)
    requires System(a, b) && i < a.Length && j < a.Length
    modifies a, b
    ensures System(a, b) && Rows(a) == Swap(old(Rows(a)), i, j) && b[..] == Swap(old(b[..]), i, j)
    ensures a[..] == Swap(old(a[..]), i, j)
  {
    a[i], a[j] := a[j], a[i];
    b[i], b[j] := b[j], b[i];
  }

  /** Choose the pivot row, swap it up, eliminate below it. */
  method PivotRound(a: array<array<real>>, b: array<real>, i: nat, ghost o: Matrix, ghost ob: Vector)
    requires System(a, b) && i < a.Length
    requires Shapes(Rows(a), b[..], o, ob)
    requires Eliminated(Rows(a), b[..], o, ob, i)
    requires WellConditioned(o) ==> PivotsOk(Rows(a), i)
    modifies a, b, a[..]
    ensures System(a, b) && forall k :: 0 <= k < a.Length ==> a[k] in old(a[..])
    ensures Eliminated(Rows(a), b[..], o, ob, i + 1)
    ensures WellConditioned(o) ==> PivotsOk(Rows(a), i + 1)
    ensures AllTiny(old(Rows(a))) ==> AllTiny(Rows(a))
  {
    hide SameSolutions, SameNorms, WellConditioned, Multipliers, AllTiny, Triangular;
    ghost var m, mb := Rows(a), b[..];
    var maxRow := FindPivot(a, b, i);
    assert forall k :: i <= k < a.Length ==> m[k][i] == a[k][i];
    SwapRowReferences(a, b, i, maxRow);
    assert Rows(a)[i] == a[i][..] == m[maxRow];
    ghost var c := EliminateColumn(a, b, i);
    RoundKeeps(m, mb, o, ob, i, maxRow, c, Rows(a), b[..]);
    if AllTiny(m) {
      TinyRound(m, i, maxRow, Rows(a));
    }
  }

  /** With no entry above the floor a round only exchanges two rows. */
  lemma TinyRound(m: Matrix, i: nat, r: nat, m': Matrix)
    requires IsMatrix(m, |m|, |m|) && i < |m| && r < |m| && AllTiny(m)
    requires Abs(m[r][i]) < PIVOT_FLOOR ==> m' == Swap(m, i, r)
    ensures IsMatrix(m', |m|, |m|) && AllTiny(m')
  {
  }

  /** Solves A x = b in place. On every system, the result is a given solution of the system as
      it was on entry exactly when that solution is zero at every final diagonal entry below the
      pivot floor; so it is a solution at all exactly when there is such a one. With no entry
      below the floor it is the one solution, and a well-conditioned system never meets one. */
  method SolveLinearSystem(a: array<array<real>>, b: array<real>) returns (x: array<real>)
    requires System(a, b)
    modifies a, b, a[..]
    ensures fresh(x) && x.Length == b.Length && System(a, b)
    ensures forall k :: 0 <= k < a.Length ==> a[k] in old(a[..])
    ensures forall i :: 0 <= i < a.Length && Abs(a[i][i]) < PIVOT_FLOOR ==> x[i] == 0.0
    ensures forall y: Vector {:trigger Solves(old(Rows(a)), old(b[..]), y)} ::
              |y| == a.Length && Solves(old(Rows(a)), old(b[..]), y) ==> (x[..] == y <==> Vanishes(Rows(a), a.Length, y))
    ensures Solves(old(Rows(a)), old(b[..]), x[..]) <==> exists y :: VanishingSolution(Rows(a), old(Rows(a)), old(b[..]), y)
    ensures PivotsOk(Rows(a), a.Length) ==> UniqueSolution(old(Rows(a)), old(b[..]), x[..])
    ensures WellConditioned(old(Rows(a))) ==> PivotsOk(Rows(a), a.Length)
    ensures AllTiny(old(Rows(a))) ==>
              AllZero(x[..]) && (Solves(old(Rows(a)), old(b[..]), x[..]) <==> AllZero(old(b[..])))
  {
    hide SameSolutions, SameNorms, WellConditioned, UniqueSolution, Triangular, AllTiny, AllZero, Solves, Kills;
    var n := b.Length;
    ghost var o, ob := Rows(a), b[..];
    Initially(o, ob);
    for i := 0 to n
      invariant System(a, b)
      invariant forall k :: 0 <= k < n ==> a[k] in old(a[..])
      invariant Eliminated(Rows(a), b[..], o, ob, i)
      invariant WellConditioned(o) ==> PivotsOk(Rows(a), i)
      invariant AllTiny(o) ==> AllTiny(Rows(a))
    {
      PivotRound(a, b, i, o, ob);
    }
    ghost var m, mb := Rows(a), b[..];
    x := BackSubstitute(a, b);
    assert forall i :: 0 <= i < n ==> a[i][i] == m[i][i];
    assert Rows(a) == m && Finished(m, mb, o, ob, x[..]);
    ResultsOf(m, mb, o, ob, x[..]);
  }

  /** What the final system and the result say about the original one, together. */
  lemma ResultsOf(m: Matrix, b: Vector, o: Matrix, ob: Vector, x: Vector)
    requires Finished(m, b, o, ob, x)
    ensures forall y: Vector {:trigger Solves(o, ob, y)} ::
              |y| == |m| && Solves(o, ob, y) ==> (x == y <==> Vanishes(m, |m|, y))
    ensures Solves(o, ob, x) <==> exists y :: VanishingSolution(m, o, ob, y)
    ensures PivotsOk(m, |m|) ==> UniqueSolution(o, ob, x)
    ensures AllTiny(m) ==> AllZero(x) && (Solves(o, ob, x) <==> AllZero(ob))
  {
    hide SameSolutions, SameNorms, UniqueSolution, Triangular, AllTiny, AllZero, Solves, BackSubstituted;
    ResultSolvesIff(m, b, o, ob, x);
    forall y: Vector | |y| == |m| && Solves(o, ob, y)
      ensures x == y <==> Vanishes(m, |m|, y)
    {
      ResultIsSolutionIff(m, b, o, ob, x, y);
    }
    if PivotsOk(m, |m|) {
      UniqueResult(m, b, o, ob, x);
    }
    if AllTiny(m) {
      TinyResult(m, b, x);
      ZerosSolve(o, ob, x);
    }
  }

  lemma Initially(o: Matrix, ob: Vector)
    requires IsMatrix(o, |o|, |o|) && |ob| == |o|
    ensures Eliminated(o, ob, o, ob, 0)
  {
  }
}
