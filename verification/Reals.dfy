/** Order properties of powers, products and quotients of reals. */
module Reals {

  // pow(x, 2), pow(x, 3) and pow(x, 4)
  function Pow2(x: real): real { x * x }
  function Pow3(x: real): real { x * x * x }
  function Pow4(x: real): real { x * x * x * x }

  lemma Product(x: real, y: real)
    requires x >= 0.0 && y >= 0.0
    ensures x * y >= 0.0
  {
  }

  lemma ProductMonotone(x: real, y: real, z: real)
    requires x <= y && z >= 0.0
    ensures x * z <= y * z
  {
    Product(y - x, z);
    assert y * z - x * z == (y - x) * z;
  }

  lemma ProductPositive(x: real, y: real)
    requires x > 0.0 && y > 0.0
    ensures x * y > 0.0
  {
  }

  lemma QuotientMonotone(x: real, y: real, n: real)
    requires x <= y && n > 0.0
    ensures x / n <= y / n && (x >= 0.0 ==> x / n >= 0.0)
  {
    var p, q := x / n, y / n;
    assert p * n == x && q * n == y;
    FactorOrder(p, q, n);
    FactorOrder(0.0, p, n);
  }

  lemma FactorOrder(p: real, q: real, n: real)
    requires n > 0.0
    ensures p * n <= q * n ==> p <= q
  {
    if p > q {
      ProductPositive(p - q, n);
      assert (p - q) * n == p * n - q * n;
    }
  }

  lemma QuotientPositive(x: real, y: real)
    requires x > 0.0 && y > 0.0
    ensures x / y > 0.0
  {
    var q := x / y;
    assert q * y == x;
    FactorOrder(q, 0.0, y);
    FactorOrder(0.0, q, y);
  }

  lemma PowersNonnegative(x: real)
    ensures Pow2(x) >= 0.0 && (x >= 0.0 ==> Pow3(x) >= 0.0 && Pow4(x) >= 0.0)
  {
  }

  lemma PowersPositive(x: real)
    requires x > 0.0
    ensures Pow2(x) > 0.0 && Pow3(x) > 0.0 && Pow4(x) > 0.0
  {
    SquarePositive(x);
    ProductPositive(Pow2(x), x);
    assert Pow3(x) == Pow2(x) * x;
    ProductPositive(Pow2(x), Pow2(x));
    assert Pow4(x) == Pow2(x) * Pow2(x);
  }

  lemma SquarePositive(x: real)
    requires x > 0.0
    ensures Pow2(x) > 0.0
  {
    SquareStrict(0.0, x);
  }

  lemma SquareMonotone(x: real, y: real)
    requires 0.0 <= x <= y
    ensures Pow2(x) <= Pow2(y)
  {
  }

  lemma CubeMonotone(x: real, y: real)
    requires 0.0 <= x <= y
    ensures Pow3(x) <= Pow3(y)
  {
    SquareMonotone(x, y);
    PowersNonnegative(x);
    Times(Pow2(x), Pow2(y), x, y);
    assert Pow3(x) == Pow2(x) * x && Pow3(y) == Pow2(y) * y;
  }

  lemma FourthMonotone(x: real, y: real)
    requires 0.0 <= x <= y
    ensures Pow4(x) <= Pow4(y)
  {
    SquareMonotone(x, y);
    PowersNonnegative(x);
    SquareMonotone(Pow2(x), Pow2(y));
    assert Pow4(x) == Pow2(Pow2(x)) && Pow4(y) == Pow2(Pow2(y));
  }

  lemma Times(a: real, b: real, x: real, y: real)
    requires 0.0 <= a <= b && 0.0 <= x <= y
    ensures 0.0 <= a * x <= b * y
  {
    Product(a, x);
    ProductMonotone(a, b, x);
    ScaleMonotone(b, x, y);
  }

  lemma ScaleMonotone(k: real, x: real, y: real)
    requires k >= 0.0 && x <= y
    ensures k * x <= k * y
  {
    Product(k, y - x);
    assert k * (y - x) == k * y - k * x;
  }

  lemma SquareStrict(x: real, y: real)
    requires 0.0 <= x < y
    ensures Pow2(x) < Pow2(y)
  {
    ProductPositive(y - x, y + x);
    assert y * y - x * x == (y - x) * (y + x);
  }

  /** `r` is the square root of `x`. */
  predicate IsRoot(r: real, x: real) {
    r >= 0.0 && Pow2(r) == x
  }

  lemma RootMonotone(r: real, s: real, x: real, y: real)
    requires IsRoot(r, x) && IsRoot(s, y) && x <= y
    ensures r <= s
  {
    if r > s {
      SquareStrict(s, r);
      assert false;
    }
  }
}
