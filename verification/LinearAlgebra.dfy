/** Vectors and matrices over the reals, as far as Gaussian elimination and the
    ridge fit need them. */
module LinearAlgebra {
  import opened RealArith

  type Vector = seq<real>
  type Matrix = seq<Vector>

  /** The inner product of a and b from index `lo` on. */
  ghost function DotFrom(a: Vector, b: Vector, lo: nat): real
    requires |a| == |b| && lo <= |a|
    decreases |a| - lo
  {
    if lo == |a| then 0.0 else a[lo] * b[lo] + DotFrom(a, b, lo + 1)
  }

  ghost function Dot(a: Vector, b: Vector): real
    requires |a| == |b|
  {
    DotFrom(a, b, 0)
  }

  ghost predicate IsMatrix(m: Matrix, rows: nat, cols: nat) {
    |m| == rows && forall p :: 0 <= p < rows ==> |m[p]| == cols
  }

  ghost function MatVec(m: Matrix, cols: nat, v: Vector): (r: Vector)
    requires IsMatrix(m, |m|, cols) && |v| == cols
    ensures |r| == |m|
  {
    seq(|m|, p requires 0 <= p < |m| => Dot(m[p], v))
  }

  ghost function Column(m: Matrix, cols: nat, i: nat): (r: Vector)
    requires IsMatrix(m, |m|, cols) && i < cols
    ensures |r| == |m|
  {
    seq(|m|, p requires 0 <= p < |m| => m[p][i])
  }

  /** The transpose of m applied to c. */
  ghost function TransVec(m: Matrix, cols: nat, c: Vector): (r: Vector)
    requires IsMatrix(m, |m|, cols) && |c| == |m|
    ensures |r| == cols
  {
    seq(cols, i requires 0 <= i < cols => Dot(Column(m, cols, i), c))
  }

  /** a + t * b, entry by entry. */
  ghost function Axpy(a: Vector, t: real, b: Vector): (r: Vector)
    requires |a| == |b|
    ensures |r| == |a|
  {
    seq(|a|, j requires 0 <= j < |a| => a[j] + t * b[j])
  }

  ghost predicate Solves(m: Matrix, b: Vector, x: Vector)
    requires IsMatrix(m, |m|, |x|) && |b| == |m|
  {
    forall p :: 0 <= p < |m| ==> Dot(m[p], x) == b[p]
  }

  lemma DotHead(a: Vector, b: Vector, lo: nat)
    requires |a| == |b| && lo < |a|
    ensures DotFrom(a, b, lo) == Times(a[lo], b[lo]) + DotFrom(a, b, lo + 1)
  {
  }

  lemma {:induction false} DotAxpy(a: Vector, t: real, b: Vector, v: Vector, lo: nat)
    requires |a| == |b| == |v| && lo <= |a|
    ensures DotFrom(Axpy(a, t, b), v, lo) == DotFrom(a, v, lo) + t * DotFrom(b, v, lo)
    decreases |a| - lo
  {
    if lo < |a| {
      DotAxpy(a, t, b, v, lo + 1);
      assert (a[lo] + t * b[lo]) * v[lo] == a[lo] * v[lo] + t * (b[lo] * v[lo]);
    }
  }

  lemma {:induction false} DotCommutes(a: Vector, b: Vector, lo: nat)
    requires |a| == |b| && lo <= |a|
    ensures DotFrom(a, b, lo) == DotFrom(b, a, lo)
    decreases |a| - lo
  {
    if lo < |a| {
      DotCommutes(a, b, lo + 1);
    }
  }

  /** A vector is at least as long as each of its entries, so only the zero
      vector has length zero. */
  lemma {:induction false} DotSelfNonNegative(a: Vector, lo: nat)
    requires lo <= |a|
    ensures DotFrom(a, a, lo) >= 0.0
    ensures forall k :: lo <= k < |a| ==> DotFrom(a, a, lo) >= Sq(a[k])
    decreases |a| - lo
  {
    if lo < |a| {
      DotSelfNonNegative(a, lo + 1);
      SqNonNegative(a[lo]);
      assert DotFrom(a, a, lo) == Sq(a[lo]) + DotFrom(a, a, lo + 1);
    }
  }

  /** Entries that are zero up to `lo` do not contribute. */
  lemma {:induction false} DotSkip(a: Vector, b: Vector, lo: nat, hi: nat)
    requires |a| == |b| && lo <= hi <= |a|
    requires forall k :: lo <= k < hi ==> a[k] == 0.0 || b[k] == 0.0
    ensures DotFrom(a, b, lo) == DotFrom(a, b, hi)
    decreases hi - lo
  {
    if lo < hi {
      DotSkip(a, b, lo + 1, hi);
    }
  }

  lemma {:induction false} DotAgree(a: Vector, b: Vector, c: Vector, d: Vector, lo: nat)
    requires |a| == |b| == |c| == |d| && lo <= |a|
    requires forall k :: lo <= k < |a| ==> a[k] == c[k] && b[k] == d[k]
    ensures DotFrom(a, b, lo) == DotFrom(c, d, lo)
    decreases |a| - lo
  {
    if lo < |a| {
      DotAgree(a, b, c, d, lo + 1);
    }
  }

  /** Dropping the first entry. */
  lemma {:induction false} DotTail(a: Vector, b: Vector, lo: nat)
    requires |a| == |b| && 1 <= lo <= |a|
    ensures DotFrom(a, b, lo) == DotFrom(a[1..], b[1..], lo - 1)
    decreases |a| - lo
  {
    if lo < |a| {
      DotTail(a, b, lo + 1);
    }
  }

  lemma {:induction false} DotZero(z: Vector, v: Vector, lo: nat)
    requires |z| == |v| && lo <= |v| && forall k :: 0 <= k < |z| ==> z[k] == 0.0
    ensures DotFrom(z, v, lo) == 0.0
  {
    DotSkip(z, v, lo, |v|);
  }

  /** The first row's share of M^T c. */
  lemma TransVecHead(m: Matrix, cols: nat, c: Vector)
    requires IsMatrix(m, |m|, cols) && |c| == |m| && |m| >= 1
    ensures TransVec(m, cols, c) == Axpy(TransVec(m[1..], cols, c[1..]), c[0], m[0])
  {
    var t, t' := TransVec(m, cols, c), TransVec(m[1..], cols, c[1..]);
    forall i | 0 <= i < cols
      ensures t[i] == Axpy(t', c[0], m[0])[i]
    {
      DotTail(Column(m, cols, i), c, 1);
      assert Column(m, cols, i)[1..] == Column(m[1..], cols, i);
    }
  }

  /** Moving a matrix across the inner product: <M^T c, v> = <c, M v>. */
  lemma {:induction false} Adjoint(m: Matrix, cols: nat, c: Vector, v: Vector)
    requires IsMatrix(m, |m|, cols) && |c| == |m| && |v| == cols
    ensures Dot(TransVec(m, cols, c), v) == Dot(c, MatVec(m, cols, v))
    decreases |m|
  {
    if m == [] {
      DotZero(TransVec(m, cols, c), v, 0);
    } else {
      var t' := TransVec(m[1..], cols, c[1..]);
      Adjoint(m[1..], cols, c[1..], v);
      TransVecHead(m, cols, c);
      DotAxpy(t', c[0], m[0], v, 0);
      var mv := MatVec(m, cols, v);
      DotTail(c, mv, 1);
      assert mv[1..] == MatVec(m[1..], cols, v);
    }
  }

  /** The expansion of |a + t b|^2. */
  lemma SquareExpand(a: Vector, t: real, b: Vector)
    requires |a| == |b|
    ensures Dot(Axpy(a, t, b), Axpy(a, t, b)) == Dot(a, a) + 2.0 * t * Dot(a, b) + t * t * Dot(b, b)
  {
    var s := Axpy(a, t, b);
    DotAxpy(a, t, b, s, 0);
    DotCommutes(a, s, 0);
    DotCommutes(b, s, 0);
    DotAxpy(a, t, b, a, 0);
    DotAxpy(a, t, b, b, 0);
    DotCommutes(a, b, 0);
    var aa, ab, bb := Dot(a, a), Dot(a, b), Dot(b, b);
    assert Dot(s, s) == (aa + t * ab) + t * (ab + t * bb);
    assert t * (ab + t * bb) == t * ab + t * t * bb;
  }

  lemma MatVecAxpy(m: Matrix, cols: nat, a: Vector, t: real, b: Vector)
    requires IsMatrix(m, |m|, cols) && |a| == |b| == cols
    ensures MatVec(m, cols, Axpy(a, t, b)) == Axpy(MatVec(m, cols, a), t, MatVec(m, cols, b))
  {
    forall p | 0 <= p < |m|
      ensures MatVec(m, cols, Axpy(a, t, b))[p] == Axpy(MatVec(m, cols, a), t, MatVec(m, cols, b))[p]
    {
      DotCommutes(m[p], Axpy(a, t, b), 0);
      DotAxpy(a, t, b, m[p], 0);
      DotCommutes(m[p], a, 0);
      DotCommutes(m[p], b, 0);
    }
  }

  // ---------------------------------------------------------------------
  // The squared length of M v, row by row

  ghost function NormSqFrom(m: Matrix, v: Vector, lo: nat): real
    requires IsMatrix(m, |m|, |v|) && lo <= |m|
    decreases |m| - lo
  {
    if lo == |m| then 0.0 else Sq(Dot(m[lo], v)) + NormSqFrom(m, v, lo + 1)
  }

  ghost function NormSq(m: Matrix, v: Vector): real
    requires IsMatrix(m, |m|, |v|)
  {
    NormSqFrom(m, v, 0)
  }

  lemma {:induction false} NormSqIsDot(m: Matrix, v: Vector, lo: nat)
    requires IsMatrix(m, |m|, |v|) && lo <= |m|
    ensures NormSqFrom(m, v, lo) == DotFrom(MatVec(m, |v|, v), MatVec(m, |v|, v), lo)
    decreases |m| - lo
  {
    if lo < |m| {
      NormSqIsDot(m, v, lo + 1);
    }
  }

  /** Replacing one row changes the sum by that row's term. */
  lemma {:induction false} NormSqUpdate(m: Matrix, v: Vector, p: nat, row: Vector, lo: nat)
    requires IsMatrix(m, |m|, |v|) && p < |m| && |row| == |v| && lo <= |m|
    ensures NormSqFrom(m[p := row], v, lo) ==
            NormSqFrom(m, v, lo) + (if lo <= p then Sq(Dot(row, v)) - Sq(Dot(m[p], v)) else 0.0)
    decreases |m| - lo
  {
    if lo < |m| {
      NormSqUpdate(m, v, p, row, lo + 1);
    }
  }

  /** If every row's term is at most `cap` and the first `skip` rows vanish. */
  lemma {:induction false} NormSqBound(m: Matrix, v: Vector, cap: real, lo: nat)
    requires IsMatrix(m, |m|, |v|) && lo <= |m| && cap >= 0.0
    requires forall p :: 0 <= p < |m| ==> Sq(Dot(m[p], v)) <= cap
    ensures NormSqFrom(m, v, lo) <= Times((|m| - lo) as real, cap)
    decreases |m| - lo
  {
    if lo < |m| {
      NormSqBound(m, v, cap, lo + 1);
      assert Times((|m| - lo) as real, cap) == Times((|m| - lo - 1) as real, cap) + cap;
    }
  }
}
