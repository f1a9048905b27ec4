/** Products of integer variables, one algebraic fact at a time, so that every
    other proof in the project is linear in named products. */
module Arith {

  lemma Distrib(a: int, x: int, y: int)
    ensures a * (x + y) == a * x + a * y
    ensures (x + y) * a == x * a + y * a
  {
  }

  lemma DistribSub(a: int, x: int, y: int)
    ensures a * (x - y) == a * x - a * y
    ensures (x - y) * a == x * a - y * a
  {
  }

  lemma Assoc(a: int, b: int, c: int)
    ensures a * (b * c) == (a * b) * c
    ensures a * (b * c) == b * (a * c)
  {
  }

  lemma MulLe(a: int, x: int, y: int)
    requires 0 <= a && x <= y
    ensures a * x <= a * y
    ensures x * a <= y * a
  {
  }

  lemma MulNonNeg(a: int, b: int)
    requires 0 <= a && 0 <= b
    ensures 0 <= a * b
  {
  }

  /** A nonzero multiple of d lies outside the open interval (-d, d). */
  lemma MulAtLeast(d: int, k: int)
    requires d > 0
    ensures k >= 1 ==> d * k >= d
    ensures k <= -1 ==> d * k <= -d
    ensures k == 0 ==> d * k == 0
  {
    if k >= 1 { MulLe(d, 1, k); }
    if k <= -1 { MulLe(d, k, -1); }
  }

  /** Quotient and remainder are determined by their defining equation. */
  lemma DivModUnique(x: int, d: int, q: int, r: int)
    requires d > 0 && 0 <= r < d
    requires x == d * q + r
    ensures x / d == q && x % d == r
  {
    var q', r' := x / d, x % d;
    assert x == d * q' + r';
    DistribSub(d, q, q');
    MulAtLeast(d, q - q');
  }

  lemma DivNonNeg(x: int, m: int)
    requires x >= 0 && m > 0
    ensures x / m >= 0
    ensures x == 0 ==> x / m == 0
  {
    var q, r := x / m, x % m;
    assert x == m * q + r;
    MulAtLeast(m, q);
  }

  /** Division with remainder has one answer. */
  lemma Peel(a: int, b: int, x: int, y: int, w: int)
    requires 0 <= a < w && 0 <= b < w && a + w * x == b + w * y
    ensures a == b && x == y
  {
    DivModUnique(a + w * x, w, x, a);
    DivModUnique(a + w * x, w, y, b);
  }

  lemma ProductBound(x: nat, y: nat, p: nat)
    requires x < p && y < p
    ensures 0 <= x * y < p * p
  {
    MulLe(x, y, p);
    MulLe(p, x, p - 1);
    DistribSub(p, p, 1);
    MulNonNeg(x, y);
  }

  /** A carry or borrow is one unit of p, so a result known to lie in range fixes it. */
  lemma CarryFixed(v: int, c: int, p: int, x: int)
    requires 0 <= v < p && 0 <= x < p
    requires v + c * p == x
    ensures c == 0 && v == x
  {
    MulAtLeast(p, c);
  }

  /** One digit of base b more in a product by k, with carries. */
  lemma ShiftAlgebra(x: int, z: int, p: int, t: int, k: int, d: int, c: int, c': int, b: int)
    requires z + c * p == x * k
    requires d + c' * b == t * k + c
    ensures (z + d * p) + c' * (b * p) == (x + t * p) * k
  {
    Distrib(p, d, c' * b);
    Distrib(p, t * k, c);
    Assoc(c', b, p);
    Distrib(k, x, t * p);
    Assoc(t, p, k);
    Assoc(t, k, p);
  }

  function SignOf(x: int): int { if x > 0 then 1 else if x < 0 then -1 else 0 }
}
