/** The few facts about products of reals that the solver does not find alone. */
module RealArith {

  function Abs(x: real): real {
    if x < 0.0 then -x else x
  }

  /** The product as a term of its own: the solver simplifies x * x > 0 to
      x != 0 and then no longer knows the sign of the square. */
  function Times(x: real, y: real): real {
    x * y
  }

  lemma MulPositive(x: real, y: real)
    requires x > 0.0 && y > 0.0
    ensures Times(x, y) > 0.0
  {
  }

  lemma MulMonotone(a: real, b: real, c: real)
    requires 0.0 <= c && a <= b
    ensures Times(a, c) <= Times(b, c)
    ensures Times(c, a) <= Times(c, b)
  {
  }

  function Sq(x: real): real {
    Times(x, x)
  }

  lemma SqNonNegative(x: real)
    ensures Sq(x) >= 0.0
  {
  }

  lemma SqPositive(x: real)
    requires x != 0.0
    ensures Sq(x) > 0.0
  {
    if x < 0.0 {
      MulPositive(-x, -x);
      assert Times(-x, -x) == Times(x, x);
    } else {
      MulPositive(x, x);
    }
  }

  lemma SqLess(a: real, b: real)
    requires 0.0 <= a < b
    ensures Sq(a) < Sq(b)
  {
    MulPositive(b - a, b + a);
    assert Times(b - a, b + a) == Sq(b) - Sq(a);
  }

  lemma SqOrder(a: real, b: real)
    requires 0.0 <= a && 0.0 <= b
    ensures a <= b <==> Sq(a) <= Sq(b)
  {
    if a < b {
      SqLess(a, b);
    } else if b < a {
      SqLess(b, a);
    }
  }

  lemma SquareAbs(x: real, cap: real)
    requires Abs(x) <= cap
    ensures Sq(x) <= Sq(cap)
  {
    SqOrder(Abs(x), cap);
    assert Sq(Abs(x)) == Sq(x);
  }

  lemma CancelFactor(n: real, a: real, b: real)
    requires n > 0.0 && Times(n, b) >= Times(n, a)
    ensures b >= a
  {
    assert Times(n, a - b) == Times(n, a) - Times(n, b);
    if b < a {
      MulPositive(n, a - b);
    }
  }

  lemma TimesDistributes(a: real, b: real, c: real)
    ensures Times(a, b + c) == Times(a, b) + Times(a, c)
    ensures Times(a, b - c) == Times(a, b) - Times(a, c)
  {
  }

  lemma TimesAssociates(a: real, b: real, c: real)
    ensures Times(a, Times(b, c)) == Times(b, Times(a, c))
  {
  }

  lemma TimesUnits(a: real)
    ensures Times(a, 0.0) == 0.0 && Times(a, 1.0) == a
  {
  }

  /** x to the n. */
  ghost function Power(x: real, n: nat): real {
    if n == 0 then 1.0 else Times(x, Power(x, n - 1))
  }

  lemma Quotient(x: real, y: real) returns (q: real)
    requires y != 0.0
    ensures Times(y, q) == x
  {
    q := x / y;
  }

  /** Division, known to its callers only through the product. */
  method Divide(x: real, y: real) returns (q: real)
    requires y != 0.0
    ensures Times(q, y) == x
  {
    q := x / y;
  }
}
