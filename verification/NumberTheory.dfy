/** Divisibility, congruence and greatest common divisors over the integers. */
module NumberTheory {
  import opened Arith

  ghost predicate Divides(d: int, x: int)
  {
    exists k: int :: x == d * k
  }

  /** a is congruent to b modulo m. */
  ghost predicate Cong(a: int, b: int, m: int)
  {
    Divides(m, a - b)
  }

  /** g is the greatest common divisor of a and b: a common divisor that every
      common divisor divides. */
  ghost predicate IsGcd(g: int, a: int, b: int)
  {
    && g >= 0
    && Divides(g, a) && Divides(g, b)
    && forall d :: Divides(d, a) && Divides(d, b) ==> Divides(d, g)
  }

  /** a and b have exactly the common divisors of x and m. */
  ghost predicate SameDivisors(a: int, b: int, x: int, m: int)
  {
    forall d :: Divides(d, a) && Divides(d, b) <==> Divides(d, x) && Divides(d, m)
  }

  lemma DividesIntro(d: int, x: int, k: int)
    requires x == d * k
    ensures Divides(d, x)
  {
  }

  lemma DividesZero(d: int)
    ensures Divides(d, 0)
  {
    DividesIntro(d, 0, 0);
  }

  lemma DividesSelf(d: int)
    ensures Divides(d, d)
  {
    DividesIntro(d, d, 1);
  }

  lemma DividesAdd(d: int, x: int, y: int)
    requires Divides(d, x) && Divides(d, y)
    ensures Divides(d, x + y)
    ensures Divides(d, x - y)
  {
    var j, k :| x == d * j && y == d * k;
    Distrib(d, j, k);
    DistribSub(d, j, k);
    DividesIntro(d, x + y, j + k);
    DividesIntro(d, x - y, j - k);
  }

  lemma DividesMul(d: int, x: int, c: int)
    requires Divides(d, x)
    ensures Divides(d, x * c)
    ensures Divides(d, c * x)
  {
    var j :| x == d * j;
    Assoc(d, j, c);
    Assoc(c, d, j);
    DividesIntro(d, x * c, j * c);
    DividesIntro(d, c * x, c * j);
  }

  lemma DividesTrans(d: int, x: int, y: int)
    requires Divides(d, x) && Divides(x, y)
    ensures Divides(d, y)
  {
    var k :| y == x * k;
    DividesMul(d, x, k);
  }

  lemma DividesBound(d: int, x: int)
    requires Divides(d, x) && d > 0
    ensures -d < x < d ==> x == 0
    ensures x > 0 ==> d <= x
  {
    var k :| x == d * k;
    MulAtLeast(d, k);
  }

  lemma CongRefl(a: int, m: int)
    ensures Cong(a, a, m)
  {
    DividesZero(m);
  }

  lemma CongSym(a: int, b: int, m: int)
    requires Cong(a, b, m)
    ensures Cong(b, a, m)
  {
    DividesMul(m, a - b, -1);
  }

  lemma CongTrans(a: int, b: int, c: int, m: int)
    requires Cong(a, b, m) && Cong(b, c, m)
    ensures Cong(a, c, m)
  {
    DividesAdd(m, a - b, b - c);
    assert (a - b) + (b - c) == a - c;
  }

  lemma CongAdd(a: int, b: int, c: int, d: int, m: int)
    requires Cong(a, b, m) && Cong(c, d, m)
    ensures Cong(a + c, b + d, m)
    ensures Cong(a - c, b - d, m)
  {
    DividesAdd(m, a - b, c - d);
    assert (a - b) + (c - d) == (a + c) - (b + d);
    assert (a - b) - (c - d) == (a - c) - (b - d);
  }

  lemma CongScale(a: int, b: int, c: int, m: int)
    requires Cong(a, b, m)
    ensures Cong(a * c, b * c, m)
    ensures Cong(c * a, c * b, m)
  {
    DividesMul(m, a - b, c);
    DistribSub(c, a, b);
  }

  lemma CongMul(a: int, b: int, c: int, d: int, m: int)
    requires Cong(a, b, m) && Cong(c, d, m)
    ensures Cong(a * c, b * d, m)
  {
    CongScale(a, b, c, m);
    CongScale(c, d, b, m);
    CongTrans(a * c, b * c, b * d, m);
  }

  /** Adding a multiple of the modulus changes nothing. */
  lemma CongShift(a: int, k: int, m: int)
    ensures Cong(a + m * k, a, m)
    ensures Cong(a, a + m * k, m)
  {
    DividesIntro(m, m * k, k);
    CongSym(a + m * k, a, m);
  }

  lemma CongRemainder(a: int, m: int)
    requires m > 0
    ensures Cong(a % m, a, m)
  {
    CongShift(a % m, a / m, m);
    CongSym(a % m + m * (a / m), a % m, m);
  }

  /** Congruent residues in range are equal. */
  lemma CongUnique(a: int, b: int, m: int)
    requires Cong(a, b, m) && 0 <= a < m && 0 <= b < m
    ensures a == b
  {
    DividesBound(m, a - b);
  }

  lemma CongMod(a: int, r: int, m: int)
    requires Cong(a, r, m) && 0 <= r < m
    ensures a % m == r
  {
    CongRemainder(a, m);
    CongTrans(a % m, a, r, m);
    CongUnique(a % m, r, m);
  }

  /** An odd divisor of an even number divides its half. */
  lemma OddDividesHalf(d: int, y: int)
    requires d % 2 == 1
    requires Divides(d, 2 * y)
    ensures Divides(d, y)
  {
    var k :| 2 * y == d * k;
    var h := d / 2;
    assert d == 2 * h + 1;
    Distrib(k, 2 * h, 1);
    Assoc(2, h, k);
    var j := y - h * k;
    assert k == 2 * j;
    Assoc(d, 2, j);
    DividesIntro(d, y, j);
  }

  lemma OddDivisor(d: int, b: int)
    requires Divides(d, b) && b % 2 == 1
    ensures d % 2 == 1
  {
    var k :| b == d * k;
    var h := d / 2;
    Distrib(k, 2 * h, d % 2);
    Assoc(2, h, k);
    MulAtLeast(1, k);
  }

  /** 2 is invertible modulo an odd number. */
  lemma CongHalve(a: int, b: int, m: int)
    requires m % 2 == 1
    requires Cong(2 * a, 2 * b, m)
    ensures Cong(a, b, m)
  {
    assert 2 * a - 2 * b == 2 * (a - b);
    OddDividesHalf(m, a - b);
  }

  lemma IsGcdUnique(g: int, h: int, a: int, b: int)
    requires IsGcd(g, a, b) && IsGcd(h, a, b)
    ensures g == h
  {
    assert Divides(g, h) && Divides(h, g);
    if g == 0 || h == 0 {
    } else {
      DividesBound(g, h);
      DividesBound(h, g);
    }
  }

  /** Halving one of two numbers, the other odd, keeps the common divisors. */
  lemma HalfDivisors(x: int, b: int, p: int, q: int)
    requires x % 2 == 0 && b % 2 == 1
    ensures SameDivisors(x, b, p, q) <==> SameDivisors(x / 2, b, p, q)
  {
    forall d
      ensures Divides(d, x / 2) && Divides(d, b) <==> Divides(d, x) && Divides(d, b)
    {
      assert x == (x / 2) * 2;
      if Divides(d, x / 2) { DividesMul(d, x / 2, 2); }
      if Divides(d, x) && Divides(d, b) {
        OddDivisor(d, b);
        OddDividesHalf(d, x / 2);
      }
    }
  }

  lemma DiffDivisors(x: int, y: int, p: int, q: int)
    requires SameDivisors(x, y, p, q)
    ensures SameDivisors(x - y, y, p, q)
  {
    forall d
      ensures Divides(d, x - y) && Divides(d, y) <==> Divides(d, x) && Divides(d, y)
    {
      if Divides(d, x - y) && Divides(d, y) { DividesAdd(d, x - y, y); }
      if Divides(d, x) && Divides(d, y) { DividesAdd(d, x, y); }
    }
  }
}
