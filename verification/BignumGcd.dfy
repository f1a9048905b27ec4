/** crypto/bn.c: bignum_lsb and the binary greatest common divisor. */
module BignumGcd {
  import opened Arith
  import opened Bits
  import opened Limbs
  import opened NumberTheory
  import opened Bignum
  import opened BignumShift
  import opened Machine

  /** x without its factors of two. */
  function OddPart(x: nat): (o: nat)
    ensures x > 0 ==> o % 2 == 1
    ensures x == 0 ==> o == 0
  {
    if x == 0 || x % 2 == 1 then x else OddPart(x / 2)
  }

  /** The number of factors of two of x, 0 for 0. */
  function TwoAdic(x: nat): (k: nat)
  {
    if x == 0 || x % 2 == 1 then 0 else 1 + TwoAdic(x / 2)
  }

  lemma {:induction false} OddTimesPower(x: nat)
    ensures x == OddPart(x) * Pow2(TwoAdic(x))
  {
    if x == 0 || x % 2 == 1 {
      assert Pow2(0) == 1;
    } else {
      OddTimesPower(x / 2);
      Assoc(OddPart(x / 2), 2, Pow2(TwoAdic(x / 2)));
    }
  }

  /** An odd number times a power of two shows its odd part and its power. */
  lemma {:induction false} FactorsOf(o: nat, k: nat)
    requires o % 2 == 1
    ensures TwoAdic(o * Pow2(k)) == k && OddPart(o * Pow2(k)) == o
  {
    if k == 0 {
      assert Pow2(0) == 1;
    } else {
      FactorsOf(o, k - 1);
      Assoc(o, 2, Pow2(k - 1));
      var y := o * Pow2(k - 1);
      assert o * Pow2(k) == 2 * y;
      MulAtLeast(o, Pow2(k - 1));
    }
  }

  lemma {:induction false} OddPartDivisors(x: nat, b: nat, p: int, q: int)
    requires b % 2 == 1
    ensures SameDivisors(x, b, p, q) <==> SameDivisors(OddPart(x), b, p, q)
  {
    if x != 0 && x % 2 == 0 {
      HalfDivisors(x, b, p, q);
      OddPartDivisors(x / 2, b, p, q);
    }
  }

  lemma SwapDivisors(x: int, y: int, p: int, q: int)
    ensures SameDivisors(x, y, p, q) <==> SameDivisors(y, x, p, q)
  {
  }

  /** The subtract-and-halve step on two odd numbers. */
  lemma GcdStep(x: nat, y: nat, p: int, q: int)
    requires x % 2 == 1 && y % 2 == 1 && x >= y
    requires SameDivisors(x, y, p, q)
    ensures SameDivisors(OddPart((x - y) / 2), y, p, q)
  {
    hide SameDivisors, OddPart;
    DiffDivisors(x, y, p, q);
    HalfDivisors(x - y, y, p, q);
    OddPartDivisors((x - y) / 2, y, p, q);
  }

  /** Doubling both numbers doubles their greatest common divisor. */
  lemma GcdDouble(g: int, x: int, y: int)
    requires IsGcd(g, x, y)
    ensures IsGcd(2 * g, 2 * x, 2 * y)
  {
    DoubleDivides(g, x);
    DoubleDivides(g, y);
    forall d | Divides(d, 2 * x) && Divides(d, 2 * y)
      ensures Divides(d, 2 * g)
    {
      if d % 2 == 1 {
        OddDividesHalf(d, x);
        OddDividesHalf(d, y);
        DividesMul(d, g, 2);
      } else {
        HalfDivides(d / 2, x);
        HalfDivides(d / 2, y);
        DoubleDivides(d / 2, g);
      }
    }
  }

  lemma DoubleDivides(d: int, x: int)
    requires Divides(d, x)
    ensures Divides(2 * d, 2 * x)
  {
    var k :| x == d * k;
    Assoc(2, d, k);
    DividesIntro(2 * d, 2 * x, k);
  }

  lemma HalfDivides(e: int, x: int)
    requires Divides(2 * e, 2 * x)
    ensures Divides(e, x)
  {
    var k :| 2 * x == (2 * e) * k;
    Assoc(2, e, k);
    DividesIntro(e, x, k);
  }

  lemma {:induction false} GcdScale(g: nat, x: nat, y: nat, k: nat)
    requires IsGcd(g, x, y)
    ensures IsGcd(g * Pow2(k), x * Pow2(k), y * Pow2(k))
  {
    if k == 0 {
      assert Pow2(0) == 1;
    } else {
      GcdScale(g, x, y, k - 1);
      var p := Pow2(k - 1);
      GcdDouble(g * p, x * p, y * p);
      Assoc(g, 2, p);
      Assoc(x, 2, p);
      Assoc(y, 2, p);
    }
  }

  /** Taking out the smaller power of two leaves numbers, one of them odd, that
      have the common divisors of the odd parts. */
  lemma TakeOutPower(a: nat, b: nat, k: nat) returns (p: nat, q: nat)
    requires a > 0 && b > 0
    requires k == if TwoAdic(b) < TwoAdic(a) then TwoAdic(b) else TwoAdic(a)
    ensures a == p * Pow2(k) && b == q * Pow2(k)
    ensures SameDivisors(OddPart(a), OddPart(b), p, q)
  {
    OddTimesPower(a);
    OddTimesPower(b);
    p := OddPart(a) * Pow2(TwoAdic(a) - k);
    q := OddPart(b) * Pow2(TwoAdic(b) - k);
    Rejoin(OddPart(a), TwoAdic(a), k);
    Rejoin(OddPart(b), TwoAdic(b), k);
    FactorsOf(OddPart(a), TwoAdic(a) - k);
    FactorsOf(OddPart(b), TwoAdic(b) - k);
    assert Pow2(0) == 1;
    if TwoAdic(b) == k {
      OddPartDivisors(p, q, p, q);
    } else {
      SwapDivisors(p, q, p, q);
      OddPartDivisors(q, p, p, q);
      SwapDivisors(OddPart(q), p, p, q);
    }
  }

  lemma Rejoin(o: nat, j: nat, k: nat)
    requires k <= j
    ensures o * Pow2(j - k) * Pow2(k) == o * Pow2(j)
  {
    Pow2Add(j - k, k);
    Assoc(o, Pow2(j - k), Pow2(k));
  }

  /** Bit j of a byte whose lower bits are clear. */
  lemma ByteBit(x: byte, j: nat)
    requires j < 8 && Divides(Pow2(j), x)
    ensures x / Pow2(j) >= 0
    ensures (x / Pow2(j)) % 2 == 1 ==> x == Pow2(j) * (x / Pow2(j))
    ensures (x / Pow2(j)) % 2 == 0 ==> Divides(Pow2(j + 1), x)
  {
    var k :| x == Pow2(j) * k;
    DivModUnique(x, Pow2(j), k, 0);
    DivNonNeg(x, Pow2(j));
    if k % 2 == 0 {
      Assoc(Pow2(j), 2, k / 2);
      DividesIntro(Pow2(j + 1), x, k / 2);
    }
  }

  /** The first set bit, bit j of word i, gives the factors of two. */
  lemma FirstBit(d: seq<byte>, i: nat, j: nat, m: nat)
    requires i < |d| && j < 8
    requires forall k :: 0 <= k < i ==> d[k] == 0
    requires d[i] == Pow2(j) * m && m % 2 == 1
    ensures TwoAdic(Val(d, BYTE)) == 8 * i + j
  {
    hide Val, Pow, Pow2, TwoAdic;
    ValSplit(d, i, BYTE);
    ValZeros(d[..i], BYTE);
    ValSuffix(d, i, BYTE);
    var r := Val(d[i + 1..], BYTE);
    var o := OddFactor(j, m, r);
    WeightedFactor(i, j, o, d[i] + BYTE * r);
    FactorsOf(o, 8 * i + j);
  }

  lemma OddFactor(j: nat, m: nat, r: nat) returns (o: nat)
    requires j < 8 && m % 2 == 1
    ensures o % 2 == 1
    ensures Pow2(j) * m + BYTE * r == Pow2(j) * o
  {
    var h := Pow2(7 - j);
    MulNonNeg(h, r);
    o := m + 2 * (h * r);
    assert Pow2(j) * (2 * h) == BYTE by {
      Pow2Literals();
      Pow2Add(j, 8 - j);
      assert Pow2(8 - j) == 2 * h;
    }
    Distrib(Pow2(j), m, 2 * (h * r));
    Assoc(2, h, r);
    Assoc(Pow2(j), 2 * h, r);
  }

  lemma WeightedFactor(i: nat, j: nat, o: nat, v: int)
    requires v == Pow2(j) * o
    ensures Pow(BYTE, i) * v == o * Pow2(8 * i + j)
  {
    hide Pow, Pow2;
    Pow2Literals();
    PowOfPow2(8, i);
    Pow2Add(8 * i, j);
    Assoc(Pow2(8 * i), Pow2(j), o);
  }

  /** bignum_lsb: the number of factors of two, 0 for zero. */
  method Lsb(a: Bn) returns (count: nat)
    requires a.Valid()
    ensures count == TwoAdic(a.Mag())
  {
    hide Val, TwoAdic, Pow2, Divides;
    count := 0;
    for i := 0 to N
      invariant count == 8 * i
      invariant forall k :: 0 <= k < i ==> a.d[k] == 0
    {
      var j := 0;
      UnitDivides(a.d[i]);
      while j < 8
        invariant 0 <= j <= 8 && count == 8 * i + j
        invariant Divides(Pow2(j), a.d[i])
      {
        ByteBit(a.d[i], j);
        if (a.d[i] / Pow2(j)) % 2 != 0 {
          FirstBit(a.d, i, j, a.d[i] / Pow2(j));
          return;
        }
        j := j + 1;
        count := count + 1;
      }
      ByteClear(a.d[i]);
    }
    ValZeros(a.d, BYTE);
    ZeroTwoAdic();
    return 0;
  }

  lemma ZeroTwoAdic()
    ensures TwoAdic(0) == 0
  {
  }

  lemma UnitDivides(x: int)
    ensures Divides(Pow2(0), x)
  {
    DividesIntro(1, x, x);
  }

  lemma ByteClear(x: byte)
    requires Divides(Pow2(8), x)
    ensures x == 0
  {
    Pow2Literals();
    DividesBound(256, x);
  }

  /** `bignum_rshift(&t, &t, bignum_lsb(&t))` */
  method DropTwos(t: Bn)
    requires t.Valid()
    modifies t
    ensures t.Valid() && t.s == old(t.s)
    ensures t.Mag() == OddPart(old(t.Mag()))
  {
    hide Val, Pow2, OddPart, TwoAdic;
    ghost var x := t.Mag();
    var k := Lsb(t);
    OddQuotient(x);
    Rshift(t, t, k);
  }

  lemma OddQuotient(x: nat)
    ensures x / Pow2(TwoAdic(x)) == OddPart(x)
  {
    hide Pow2, OddPart, TwoAdic;
    OddTimesPower(x);
    DivModUnique(x, Pow2(TwoAdic(x)), OddPart(x), 0);
  }

  /** The body of the loop of bignum_gcd. */
  method GcdBody(ta: Bn, tb: Bn, ghost p: int, ghost q: int)
    requires ta.Valid() && tb.Valid() && ta != tb
    requires ta.s == 1 && tb.s == 1 && ta.Mag() > 0 && tb.Mag() > 0
    requires SameDivisors(OddPart(ta.Mag()), OddPart(tb.Mag()), p, q)
    modifies ta, tb
    ensures ta.Valid() && tb.Valid() && ta.s == 1 && tb.s == 1 && tb.Mag() > 0
    ensures SameDivisors(OddPart(ta.Mag()), OddPart(tb.Mag()), p, q)
    ensures ta.Mag() == 0 ==> tb.Mag() % 2 == 1
    ensures ta.Mag() + tb.Mag() < old(ta.Mag() + tb.Mag())
  {
    hide Val, Capacity, SameDivisors, OddPart;
    OddPartBound(ta.Mag());
    OddPartBound(tb.Mag());
    DropTwos(ta);
    DropTwos(tb);
    ghost var x, y := ta.Mag(), tb.Mag();
    OddPartOdd(x);
    OddPartOdd(y);
    var cmp := Cmp(ta, tb);
    if cmp >= 0 {
      GcdStep(x, y, p, q);
      HalfDifference(ta, tb);
    } else {
      SwapDivisors(x, y, p, q);
      GcdStep(y, x, p, q);
      HalfDifference(tb, ta);
      SwapDivisors(OddPart((y - x) / 2), x, p, q);
    }
  }

  /** The subtraction and shift of one branch. */
  method HalfDifference(a: Bn, b: Bn)
    requires a.Valid() && b.Valid() && a != b && a.s == 1 && b.s == 1 && b.Mag() <= a.Mag()
    modifies a
    ensures a.Valid() && a.s == 1 && a.Mag() == (old(a.Mag()) - b.Mag()) / 2
  {
    hide Val, Capacity;
    MagBound(a);
    MagBound(b);
    assert Pow2(1) == 2;
    Sub(a, b, a);
    Rshift(a, a, 1);
  }

  lemma OddPartOdd(x: nat)
    requires x % 2 == 1
    ensures OddPart(x) == x
  {
  }

  lemma {:induction false} OddPartBound(x: nat)
    ensures OddPart(x) <= x
    ensures x > 0 ==> OddPart(x) % 2 == 1
  {
    if x != 0 && x % 2 == 0 { OddPartBound(x / 2); }
  }

  /** bignum_gcd: the greatest common divisor of the magnitudes, zeros included;
      gcd(x, 0) keeps the sign of x. */
  method Gcd(a: Bn, b: Bn, g: Bn)
    requires a.Valid() && b.Valid() && g.Valid()
    modifies g
    ensures g.Valid()
    ensures IsGcd(g.Mag(), old(a.Mag()), old(b.Mag()))
    ensures g.s == if old(b.Mag()) == 0 then old(a.s) else 1
  {
    hide Val, Capacity, SameDivisors, OddPart, TwoAdic, IsGcd;
    ghost var x, y := a.Mag(), b.Mag();
    var ta := new Bn();
    var tb := new Bn();
    Assign(ta, a);
    Assign(tb, b);
    var lz := Lsb(ta);
    var lzt := Lsb(tb);
    LowBitOf(tb.d);
    EvenWithoutTwos(y);
    if lzt == 0 && tb.d[0] % 2 == 0 {
      Assign(g, a);
      GcdZero(x);
      return;
    }
    if lzt < lz {
      lz := lzt;
    }
    ta.s := 1;
    tb.s := 1;
    MagBound(tb);
    if x == 0 {
      GcdOfZero(y);
    }
    var zero := IsZero(ta);
    if zero {
      ShiftBack(tb, lz, x, y);
    } else {
      ghost var p, q := TakeOutPower(x, y, lz);
      GcdLoop(ta, tb, p, q);
      GcdMeets(tb.Mag(), p, q, lz, x, y);
      ShiftBack(tb, lz, x, y);
    }
    Assign(g, tb);
  }

  lemma EvenWithoutTwos(y: nat)
    ensures TwoAdic(y) == 0 && y % 2 == 0 <==> y == 0
    ensures y == 0 ==> TwoAdic(y) == 0
  {
  }

  lemma GcdZero(x: nat)
    ensures IsGcd(x, x, 0)
  {
    DividesSelf(x);
    DividesZero(x);
  }

  lemma GcdOfZero(y: nat)
    ensures IsGcd(y, 0, y)
    ensures TwoAdic(0) == 0 && y * Pow2(0) == y
  {
    DividesSelf(y);
    DividesZero(y);
  }

  /** The loop of bignum_gcd. */
  method GcdLoop(ta: Bn, tb: Bn, ghost p: int, ghost q: int)
    requires ta.Valid() && tb.Valid() && ta != tb
    requires ta.s == 1 && tb.s == 1 && ta.Mag() > 0 && tb.Mag() > 0
    requires SameDivisors(OddPart(ta.Mag()), OddPart(tb.Mag()), p, q)
    modifies ta, tb
    ensures tb.Valid() && tb.s == 1 && tb.Mag() > 0
    ensures SameDivisors(0, tb.Mag(), p, q)
  {
    hide Val, SameDivisors, OddPart;
    var zero := false;
    while !zero
      invariant ta.Valid() && tb.Valid() && ta.s == 1 && tb.s == 1 && tb.Mag() > 0
      invariant zero <==> ta.Mag() == 0
      invariant SameDivisors(OddPart(ta.Mag()), OddPart(tb.Mag()), p, q)
      invariant zero ==> tb.Mag() % 2 == 1
      decreases ta.Mag() + tb.Mag()
    {
      GcdBody(ta, tb, p, q);
      zero := IsZero(ta);
    }
    OddPartOdd(tb.Mag());
    OddPartBound(0);
  }

  lemma GcdMeets(t: nat, p: nat, q: nat, k: nat, x: nat, y: nat)
    requires SameDivisors(0, t, p, q)
    requires x == p * Pow2(k) && y == q * Pow2(k)
    ensures IsGcd(t * Pow2(k), x, y)
  {
    assert IsGcd(t, p, q) by {
      DividesSelf(t);
      DividesZero(t);
    }
    GcdScale(t, p, q, k);
  }

  /** `bignum_lshift(&tb, &tb, lz)` */
  method ShiftBack(tb: Bn, lz: nat, ghost x: nat, ghost y: nat)
    requires tb.Valid() && y > 0 && y < Capacity()
    requires IsGcd(tb.Mag() * Pow2(lz), x, y)
    modifies tb
    ensures tb.Valid() && tb.s == old(tb.s)
    ensures IsGcd(tb.Mag(), x, y)
  {
    hide Val, Capacity, Pow2;
    GcdBelow(tb.Mag() * Pow2(lz), x, y);
    Lshift(tb, tb, lz);
  }

  lemma GcdBelow(g: nat, x: nat, y: nat)
    requires IsGcd(g, x, y) && y > 0
    ensures g <= y
  {
    var k :| y == g * k;
    if g > 0 { DividesBound(g, y); }
  }
}
