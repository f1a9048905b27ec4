/** Bitwise operators of C on unsigned integers, written over mathematical
    naturals, and the facts that turn masks, shifts and disjoint ORs into
    arithmetic. */
module Bits {
  import opened Arith

  function Pow2(n: nat): (r: nat)
    ensures r > 0
  {
    if n == 0 then 1 else 2 * Pow2(n - 1)
  }

  /** The C operator `|`. */
  function Or(a: nat, b: nat): (r: nat)
    decreases a + b
  {
    if a == 0 && b == 0 then 0
    else (if a % 2 == 1 || b % 2 == 1 then 1 else 0) + 2 * Or(a / 2, b / 2)
  }

  /** The C operator `&`. */
  function And(a: nat, b: nat): (r: nat)
    decreases a + b
  {
    if a == 0 && b == 0 then 0
    else (if a % 2 == 1 && b % 2 == 1 then 1 else 0) + 2 * And(a / 2, b / 2)
  }

  /** The C operator `^`. */
  function Xor(a: nat, b: nat): (r: nat)
    decreases a + b
  {
    if a == 0 && b == 0 then 0
    else (if a % 2 != b % 2 then 1 else 0) + 2 * Xor(a / 2, b / 2)
  }

  /** The number of bits of v. */
  function BitCount(v: nat): (b: nat)
  {
    if v == 0 then 0 else 1 + BitCount(v / 2)
  }

  lemma {:induction false} BitCountBound(v: nat)
    ensures v < Pow2(BitCount(v))
  {
    if v != 0 { BitCountBound(v / 2); }
  }

  lemma {:induction false} Pow2Add(m: nat, n: nat)
    ensures Pow2(m + n) == Pow2(m) * Pow2(n)
  {
    if m != 0 {
      Pow2Add(m - 1, n);
      assert m + n - 1 == (m - 1) + n;
      Assoc(2, Pow2(m - 1), Pow2(n));
    }
  }

  lemma {:induction false} Pow2Monotone(m: nat, n: nat)
    requires m <= n
    ensures Pow2(m) <= Pow2(n)
  {
    if m < n { Pow2Monotone(m, n - 1); }
  }

  /** `|` of a multiple of 2^k with a number below 2^k is addition. */
  lemma {:induction false} OrDisjoint(hi: nat, lo: nat, k: nat)
    requires lo < Pow2(k)
    requires exists q: nat :: hi == q * Pow2(k)
    ensures Or(hi, lo) == hi + lo
    ensures Or(lo, hi) == hi + lo
    decreases k
  {
    var q: nat :| hi == q * Pow2(k);
    if k == 0 {
      OrZero(hi);
    } else {
      var P := Pow2(k - 1);
      Assoc(q, 2, P);
      assert hi / 2 == q * P;
      OrDisjoint(hi / 2, lo / 2, k - 1);
    }
  }

  lemma {:induction false} OrZero(x: nat)
    ensures Or(x, 0) == x && Or(0, x) == x
  {
    if x != 0 { OrZero(x / 2); }
  }

  /** A mask of k ones keeps the k low bits. */
  lemma {:induction false} AndLowMask(x: nat, k: nat)
    ensures And(x, Pow2(k) - 1) == x % Pow2(k)
    ensures And(Pow2(k) - 1, x) == x % Pow2(k)
  {
    if k == 0 {
      AndZero(x);
    } else {
      AndLowMask(x / 2, k - 1);
      assert (Pow2(k) - 1) / 2 == Pow2(k - 1) - 1;
      ModHalf(x, Pow2(k - 1));
    }
  }

  lemma {:induction false} AndZero(x: nat)
    ensures And(x, 0) == 0 && And(0, x) == 0
  {
    if x != 0 { AndZero(x / 2); }
  }

  lemma ModHalf(x: nat, P: nat)
    requires P > 0
    ensures x % (2 * P) == x % 2 + 2 * ((x / 2) % P)
  {
    var q, r := (x / 2) / P, (x / 2) % P;
    assert x / 2 == P * q + r;
    Assoc(2, P, q);
    DivModUnique(x, 2 * P, q, x % 2 + 2 * r);
  }

  lemma AndEven(x: nat, m: nat)
    ensures And(x, 2 * m) == 2 * And(x / 2, m)
  {
    assert (2 * m) % 2 == 0 && (2 * m) / 2 == m;
    if x == 0 && m == 0 { assert And(0, 0) == 0; }
  }

  /** A mask of ones at positions k to w - 1 keeps those bits. */
  lemma {:induction false} AndHighMask(x: nat, k: nat, w: nat)
    requires k <= w
    ensures Pow2(k) <= Pow2(w)
    ensures And(x, Pow2(w) - Pow2(k)) == x % Pow2(w) - x % Pow2(k)
  {
    Pow2Monotone(k, w);
    if k == 0 {
      AndLowMask(x, w);
    } else {
      AndHighMask(x / 2, k - 1, w - 1);
      AndEven(x, Pow2(w - 1) - Pow2(k - 1));
      ModHalf(x, Pow2(k - 1));
      ModHalf(x, Pow2(w - 1));
    }
  }

  /** `|` works on the low k bits and on the rest separately. */
  lemma {:induction false} OrSplit(x: nat, X: nat, y: nat, Y: nat, k: nat)
    requires x < Pow2(k) && y < Pow2(k)
    ensures Or(x + Pow2(k) * X, y + Pow2(k) * Y) == Or(x, y) + Pow2(k) * Or(X, Y)
  {
    hide Or;
    if k == 0 {
      OrZero(0);
    } else {
      OrSplit(x / 2, X, y / 2, Y, k - 1);
      OrBit(x, Pow2(k - 1) * X, y, Pow2(k - 1) * Y);
      Assoc(2, Pow2(k - 1), X);
      Assoc(2, Pow2(k - 1), Y);
      Assoc(2, Pow2(k - 1), Or(X, Y));
    }
  }

  /** `&` works on the low k bits and on the rest separately. */
  lemma {:induction false} AndSplit(x: nat, X: nat, y: nat, Y: nat, k: nat)
    requires x < Pow2(k) && y < Pow2(k)
    ensures And(x + Pow2(k) * X, y + Pow2(k) * Y) == And(x, y) + Pow2(k) * And(X, Y)
  {
    hide And;
    if k == 0 {
      AndZero(0);
    } else {
      AndSplit(x / 2, X, y / 2, Y, k - 1);
      AndBit(x, Pow2(k - 1) * X, y, Pow2(k - 1) * Y);
      Assoc(2, Pow2(k - 1), X);
      Assoc(2, Pow2(k - 1), Y);
      Assoc(2, Pow2(k - 1), And(X, Y));
    }
  }

  lemma AndBit(x: nat, u: nat, y: nat, v: nat)
    ensures And(x + 2 * u, y + 2 * v) == (if x % 2 == 1 && y % 2 == 1 then 1 else 0) + 2 * And(x / 2 + u, y / 2 + v)
    ensures And(x, y) == (if x % 2 == 1 && y % 2 == 1 then 1 else 0) + 2 * And(x / 2, y / 2)
  {
    assert (x + 2 * u) % 2 == x % 2 && (x + 2 * u) / 2 == x / 2 + u;
    assert (y + 2 * v) % 2 == y % 2 && (y + 2 * v) / 2 == y / 2 + v;
    assert And(0, 0) == 0;
  }

  lemma {:induction false} AndBelow(x: nat, y: nat)
    ensures And(x, y) <= y
  {
    if x != 0 || y != 0 { AndBelow(x / 2, y / 2); }
  }

  lemma {:induction false} OrBound(x: nat, y: nat, k: nat)
    requires x < Pow2(k) && y < Pow2(k)
    ensures Or(x, y) < Pow2(k)
  {
    if k != 0 && (x != 0 || y != 0) { OrBound(x / 2, y / 2, k - 1); }
  }

  lemma OrBit(x: nat, u: nat, y: nat, v: nat)
    ensures Or(x + 2 * u, y + 2 * v) == (if x % 2 == 1 || y % 2 == 1 then 1 else 0) + 2 * Or(x / 2 + u, y / 2 + v)
    ensures Or(x, y) == (if x % 2 == 1 || y % 2 == 1 then 1 else 0) + 2 * Or(x / 2, y / 2)
  {
    assert (x + 2 * u) % 2 == x % 2 && (x + 2 * u) / 2 == x / 2 + u;
    assert (y + 2 * v) % 2 == y % 2 && (y + 2 * v) / 2 == y / 2 + v;
    assert Or(0, 0) == 0;
  }

  lemma {:induction false} XorBound(x: nat, y: nat, k: nat)
    requires x < Pow2(k) && y < Pow2(k)
    ensures Xor(x, y) < Pow2(k)
  {
    if k != 0 && (x != 0 || y != 0) { XorBound(x / 2, y / 2, k - 1); }
  }

  lemma {:induction false} XorComm(x: nat, y: nat)
    ensures Xor(x, y) == Xor(y, x)
    decreases x + y
  {
    if x != 0 || y != 0 { XorComm(x / 2, y / 2); }
  }

  lemma {:induction false} XorTwice(x: nat, y: nat)
    ensures Xor(Xor(x, y), y) == x
    decreases x + y
  {
    if x != 0 || y != 0 {
      hide Xor;
      XorTwice(x / 2, y / 2);
      XorStep(x, y);
      XorStep(Xor(x, y), y);
    }
  }

  /** `^` works on the low k bits and on the rest separately. */
  lemma {:induction false} XorSplit(x: nat, X: nat, y: nat, Y: nat, k: nat)
    requires x < Pow2(k) && y < Pow2(k)
    ensures Xor(x + Pow2(k) * X, y + Pow2(k) * Y) == Xor(x, y) + Pow2(k) * Xor(X, Y)
  {
    hide Xor;
    if k == 0 {
      XorNone();
    } else {
      XorSplit(x / 2, X, y / 2, Y, k - 1);
      XorBit(x, Pow2(k - 1) * X, y, Pow2(k - 1) * Y);
      Assoc(2, Pow2(k - 1), X);
      Assoc(2, Pow2(k - 1), Y);
      Assoc(2, Pow2(k - 1), Xor(X, Y));
    }
  }

  lemma XorNone()
    ensures Xor(0, 0) == 0
  {
  }

  lemma XorBit(x: nat, u: nat, y: nat, v: nat)
    ensures Xor(x + 2 * u, y + 2 * v) == (if x % 2 != y % 2 then 1 else 0) + 2 * Xor(x / 2 + u, y / 2 + v)
    ensures Xor(x, y) == (if x % 2 != y % 2 then 1 else 0) + 2 * Xor(x / 2, y / 2)
  {
    assert (x + 2 * u) % 2 == x % 2 && (x + 2 * u) / 2 == x / 2 + u;
    assert (y + 2 * v) % 2 == y % 2 && (y + 2 * v) / 2 == y / 2 + v;
    assert Xor(0, 0) == 0;
  }

  lemma XorStep(x: nat, y: nat)
    ensures Xor(x, y) % 2 == (if x % 2 != y % 2 then 1 else 0)
    ensures Xor(x, y) / 2 == Xor(x / 2, y / 2)
  {
    var b, q := if x % 2 != y % 2 then 1 else 0, Xor(x / 2, y / 2);
    assert Xor(x, y) == b + 2 * q by {
      if x == 0 && y == 0 { assert Xor(0, 0) == 0; }
    }
    DivModUnique(Xor(x, y), 2, q, b);
  }

  lemma Pow2Literals()
    ensures Pow2(8) == 0x100
    ensures Pow2(16) == 0x1_0000
    ensures Pow2(31) == 0x8000_0000
    ensures Pow2(32) == 0x1_0000_0000
    ensures Pow2(63) == 0x8000_0000_0000_0000
    ensures Pow2(64) == 0x1_0000_0000_0000_0000
  {
    assert Pow2(4) == 16;
    Pow2Add(4, 4);
    Pow2Add(8, 8);
    Pow2Add(16, 16);
    assert Pow2(32) == 2 * Pow2(31);
    Pow2Add(32, 32);
    assert Pow2(64) == 2 * Pow2(63);
  }
}
