/** crypto/bn.c: bignum_inv_mod, in place on sign-magnitude numbers. */
module BignumInverse {
  import opened Arith
  import opened Bits
  import opened Limbs
  import opened NumberTheory
  import opened Bignum
  import opened BignumShift
  import opened BignumDivide
  import opened BignumEuclid
  import opened BignumGcd

  const EINVAL: int := 22
  const EFAULT: int := 14

  ghost function RowOf(t: Bn, c1: Bn, c2: Bn): (r: Row)
    reads t, c1, c2
  {
    Row(t.Mag(), c1.Number(), c2.Number())
  }

  /** `bignum_rshift(&a, &a, 1)` */
  method HalveAt(a: Bn)
    requires a.Valid()
    modifies a
    ensures a.Valid() && a.Number() == Half(old(a.Number()))
  {
    hide Val;
    assert Pow2(1) == 2;
    Rshift(a, a, 1);
  }

  /** The body of the loops that halve tu or tv with its two coefficients. */
  method HalveOnce(t: Bn, c1: Bn, c2: Bn, ta: Bn, tb: Bn, ghost x: nat, ghost y: nat)
    requires t.Valid() && c1.Valid() && c2.Valid() && ta.Valid() && tb.Valid()
    requires t !in {c1, c2, ta, tb} && c1 !in {c2, ta, tb} && c2 !in {ta, tb}
    requires ta.Number() == Num(1, x) && tb.Number() == Num(1, y) && t.s == 1
    modifies t, c1, c2
    ensures t.Valid() && c1.Valid() && c2.Valid() && t.s == 1
    ensures RowOf(t, c1, c2) == Halved(old(RowOf(t, c1, c2)), x, y)
  {
    hide Val, Capacity, Sum;
    LowBitOf(c1.d);
    LowBitOf(c2.d);
    HalveAt(t);
    if c1.d[0] % 2 != 0 || c2.d[0] % 2 != 0 {
      Add(c1, tb, c1);
      Sub(c2, ta, c2);
    }
    HalveAt(c1);
    HalveAt(c2);
  }

  /** One of the two halving loops. */
  method HalveSide(t: Bn, c1: Bn, c2: Bn, ta: Bn, tb: Bn, ghost x: nat, ghost y: nat)
    requires t.Valid() && c1.Valid() && c2.Valid() && ta.Valid() && tb.Valid()
    requires t !in {c1, c2, ta, tb} && c1 !in {c2, ta, tb} && c2 !in {ta, tb}
    requires ta.Number() == Num(1, x) && tb.Number() == Num(1, y) && t.s == 1 && t.Mag() > 0
    modifies t, c1, c2
    ensures t.Valid() && c1.Valid() && c2.Valid() && t.s == 1
    ensures RowOf(t, c1, c2) == MadeOdd(old(RowOf(t, c1, c2)), x, y)
  {
    hide Val, Halved;
    ghost var goal := MadeOdd(RowOf(t, c1, c2), x, y);
    LowBitOf(t.d);
    while t.d[0] % 2 == 0
      invariant t.Valid() && c1.Valid() && c2.Valid() && t.s == 1 && t.Mag() > 0
      invariant t.d[0] % 2 == t.Mag() % 2 && MadeOdd(RowOf(t, c1, c2), x, y) == goal
      decreases t.Mag()
    {
      HalvedRow(RowOf(t, c1, c2), x, y);
      HalveOnce(t, c1, c2, ta, tb, x, y);
      LowBitOf(t.d);
    }
  }

  lemma HalvedRow(r: Row, x: nat, y: nat)
    requires r.t > 0 && r.t % 2 == 0
    ensures 0 < Halved(r, x, y).t == r.t / 2 < r.t && MadeOdd(r, x, y) == MadeOdd(Halved(r, x, y), x, y)
  {
  }

  /** Subtract one side from the other. */
  method SubtractSide(t: Bn, c1: Bn, c2: Bn, o: Bn, e1: Bn, e2: Bn)
    requires t.Valid() && c1.Valid() && c2.Valid() && o.Valid() && e1.Valid() && e2.Valid()
    requires t !in {c1, c2, o, e1, e2} && c1 !in {c2, o, e1, e2} && c2 !in {o, e1, e2}
    requires t.s == 1 && o.s == 1 && o.Mag() <= t.Mag()
    modifies t, c1, c2
    ensures t.Valid() && c1.Valid() && c2.Valid() && t.s == 1
    ensures RowOf(t, c1, c2) == Less(old(RowOf(t, c1, c2)), RowOf(o, e1, e2))
  {
    hide Val, Capacity;
    MagBound(t);
    Sub(t, o, t);
    Sub(c1, e1, c1);
    Sub(c2, e2, c2);
  }

  /** The body of the outer loop. */
  method Round(tu: Bn, u1: Bn, u2: Bn, tv: Bn, v1: Bn, v2: Bn, ta: Bn, tb: Bn, ghost x: nat, ghost y: nat)
    requires tu.Valid() && u1.Valid() && u2.Valid() && tv.Valid() && v1.Valid() && v2.Valid()
    requires ta.Valid() && tb.Valid() && ta.Number() == Num(1, x) && tb.Number() == Num(1, y)
    requires tu !in {u1, u2, tv, v1, v2, ta, tb} && u1 !in {u2, tv, v1, v2, ta, tb} && u2 !in {tv, v1, v2, ta, tb}
    requires tv !in {v1, v2, ta, tb} && v1 !in {v2, ta, tb} && v2 !in {ta, tb}
    requires tu.s == 1 && tv.s == 1 && tu.Mag() > 0 && tv.Mag() > 0
    modifies tu, u1, u2, tv, v1, v2
    ensures tu.Valid() && u1.Valid() && u2.Valid() && tv.Valid() && v1.Valid() && v2.Valid()
    ensures tu.s == 1 && tv.s == 1
    ensures Rows(RowOf(tu, u1, u2), RowOf(tv, v1, v2))
         == Turned(old(Rows(RowOf(tu, u1, u2), RowOf(tv, v1, v2))), x, y)
  {
    hide Val, Capacity, MadeOdd, Less;
    HalveSide(tu, u1, u2, ta, tb, x, y);
    HalveSide(tv, v1, v2, ta, tb, x, y);
    var cmp := Cmp(tu, tv);
    if cmp >= 0 {
      SubtractSide(tu, u1, u2, tv, v1, v2);
    } else {
      SubtractSide(tv, v1, v2, tu, u1, u2);
    }
  }

  /** The outer loop. */
  method Loop(tu: Bn, u1: Bn, u2: Bn, tv: Bn, v1: Bn, v2: Bn, ta: Bn, tb: Bn, ghost x: nat, ghost y: nat)
    requires tu.Valid() && u1.Valid() && u2.Valid() && tv.Valid() && v1.Valid() && v2.Valid()
    requires ta.Valid() && tb.Valid() && ta.Number() == Num(1, x) && tb.Number() == Num(1, y)
    requires tu !in {u1, u2, tv, v1, v2, ta, tb} && u1 !in {u2, tv, v1, v2, ta, tb} && u2 !in {tv, v1, v2, ta, tb}
    requires tv !in {v1, v2, ta, tb} && v1 !in {v2, ta, tb} && v2 !in {ta, tb}
    requires tu.s == 1 && tv.s == 1 && tu.Mag() > 0 && tv.Mag() > 0
    modifies tu, u1, u2, tv, v1, v2
    ensures v1.Valid()
    ensures v1.Number() == Ended(old(Rows(RowOf(tu, u1, u2), RowOf(tv, v1, v2))), x, y).v.c1
  {
    hide Val, Turned;
    ghost var goal := Ended(Rows(RowOf(tu, u1, u2), RowOf(tv, v1, v2)), x, y);
    var zero := false;
    while !zero
      invariant tu.Valid() && u1.Valid() && u2.Valid() && tv.Valid() && v1.Valid() && v2.Valid()
      invariant tu.s == 1 && tv.s == 1 && tv.Mag() > 0 && (zero <==> tu.Mag() == 0)
      invariant ta.Number() == Num(1, x) && tb.Number() == Num(1, y)
      invariant zero ==> Rows(RowOf(tu, u1, u2), RowOf(tv, v1, v2)) == goal
      invariant !zero ==> Ended(Rows(RowOf(tu, u1, u2), RowOf(tv, v1, v2)), x, y) == goal
      decreases !zero, tu.Mag() + tv.Mag()
    {
      Round(tu, u1, u2, tv, v1, v2, ta, tb, x, y);
      zero := IsZero(tu);
    }
  }

  /** The two final loops: bring v1 into [0, n). */
  method Normalize(v1: Bn, n: Bn, zero: Bn)
    requires v1.Valid() && n.Valid() && zero.Valid() && v1 !in {n, zero}
    requires zero.s == 1 && zero.Mag() == 0 && n.Value() > 1
    modifies v1
    ensures v1.Valid() && v1.s == 1 && v1.Value() == old(v1.Value()) % n.Value()
  {
    hide Val, Capacity, Sum;
    ghost var m, v := n.Value(), v1.Value();
    MagBound(n);
    MagBound(v1);
    var cmp := Cmp(v1, zero);
    while cmp < 0
      invariant v1.Valid() && v1.Mag() < Capacity() && v1.Value() % m == v % m
      invariant cmp < 0 <==> v1.s == -1
      decreases if v1.s == 1 then 0 else 1 + v1.Mag()
    {
      AddModulus(v1.Value(), 1, m);
      AddSign(v1.Number(), m);
      Add(v1, n, v1);
      MagBound(v1);
      cmp := Cmp(v1, zero);
    }
    cmp := Cmp(v1, n);
    while cmp >= 0
      invariant v1.Valid() && v1.s == 1 && v1.Mag() < Capacity() && v1.Value() % m == v % m
      invariant cmp == SignOf(v1.Mag() - m)
      decreases v1.Mag()
    {
      AddModulus(v1.Value(), -1, m);
      SubtractSign(v1.Number(), m);
      Sub(v1, n, v1);
      MagBound(v1);
      cmp := Cmp(v1, n);
    }
    DivModUnique(v1.Mag(), m, 0, v1.Mag());
  }

  lemma AddModulus(v: int, k: int, m: int)
    requires m > 0
    ensures (v + k * m) % m == v % m
  {
    var q := v / m;
    Distrib(m, q, k);
    DivModUnique(v + k * m, m, q + k, v % m);
  }

  /** Adding to a negative number, negative zero included, brings it nearer to zero or
      makes it positive. */
  lemma AddSign(a: Num, m: nat)
    requires a.s == -1 && a.m < Capacity() && 0 < m < Capacity()
    ensures Fits(ValueOf(a) + m)
    ensures Sum(a, Num(1, m)).s == -1 ==> Sum(a, Num(1, m)).m < a.m
  {
    hide Capacity;
  }

  lemma SubtractSign(a: Num, m: nat)
    requires a.s == 1 && m <= a.m < Capacity() && m > 0
    ensures Fits(ValueOf(a) - m)
    ensures Sum(a, Negated(Num(1, m))) == Num(1, a.m - m)
  {
    hide Capacity;
  }

  /** The residue of a number coprime to n is nonzero and coprime to n. */
  lemma ResidueCoprime(a: int, x: nat, n: nat)
    requires n > 1 && Cong(x, a, n) && IsGcd(1, if a >= 0 then a else -a, n)
    ensures x > 0 && Coprime(x, n)
  {
    forall d | Divides(d, x) && Divides(d, n) ensures Divides(d, 1) {
      DividesTrans(d, n, x - a);
      DividesAdd(d, x, x - a);
      DividesMul(d, a, -1);
    }
    DividesSelf(n);
    DividesZero(n);
    if x == 0 { DividesBound(n, 1); }
  }

  /** bignum_inv_mod: -EINVAL unless n > 1, -EFAULT unless a is coprime to n, and
      otherwise a number in [0, n), which is the inverse of a when no sum of the run is
      too large for the arrays; c is written only on success. */
  method InvMod(a: Bn, n: Bn, c: Bn) returns (ret: int)
    requires a.Valid() && n.Valid() && c.Valid()
    modifies c
    ensures c.Valid()
    ensures ret == if old(n.Value()) <= 1 then -EINVAL
                   else if !IsGcd(1, old(a.Mag()), old(n.Mag())) then -EFAULT
                   else 0
    ensures ret != 0 ==> c.d == old(c.d) && c.s == old(c.s)
    ensures ret == 0 ==> Answered(old(a.Value()), old(n.Value()), c.Value())
  {
    hide Val, Capacity, IsGcd, Answered;
    var one := new Bn();
    FromInt(one, 1);
    var cmp := Cmp(n, one);
    CmpOne(n, one, cmp);
    if cmp <= 0 {
      return -EINVAL;
    }
    var g := new Bn();
    Gcd(a, n, g);
    cmp := Cmp(g, one);
    CmpOne(g, one, cmp);
    if cmp != 0 {
      NotCoprime(g.Mag(), a.Mag(), n.Mag());
      return -EFAULT;
    }
    var v1 := Solve(a, n);
    Assign(c, v1);
    return 0;
  }

  /** What is returned for a coprime a: the residue of the coefficient of the run, and so
      the inverse as far as the run, or the modulus, leaves room. */
  ghost predicate Answered(a: int, n: int, c: int)
  {
    && n > 1 && a % n > 0
    && c == Coefficient(a % n, n) % n
    && (RunFits(Start(a % n, n), a % n, n) ==> Cong(a * c, 1, n))
    && (Headroom(n) ==> Cong(a * c, 1, n))
  }

  lemma CmpOne(a: Bn, one: Bn, c: int)
    requires a.Valid() && one.Valid() && one.s == 1 && one.Mag() == 1
    requires c == if a.s != one.s then a.s else a.s * SignOf(a.Mag() - one.Mag())
    ensures c <= 0 <==> a.Value() <= 1
    ensures a.s == 1 ==> (c == 0 <==> a.Mag() == 1)
  {
  }

  lemma NotCoprime(g: nat, x: nat, y: nat)
    requires IsGcd(g, x, y) && g != 1
    ensures !IsGcd(1, x, y)
  {
    hide IsGcd;
    if IsGcd(1, x, y) { IsGcdUnique(g, 1, x, y); }
  }

  /** From `bignum_mod(a, n, &ta)` to the end. */
  method Solve(a: Bn, n: Bn) returns (v1: Bn)
    requires a.Valid() && n.Valid()
    requires n.Value() > 1 && IsGcd(1, a.Mag(), n.Mag())
    ensures fresh(v1) && v1.Valid() && Answered(a.Value(), n.Value(), v1.Value())
  {
    hide Val, Capacity, Cong, IsGcd, Residue, Coprime, Answered, Coefficient;
    var ta := new Bn();
    var zero := new Bn();
    Mod(a, n, ta);
    ghost var x, y := ta.Mag(), n.Mag();
    ResidueOf(a, n, x);
    ResidueCoprime(a.Value(), x, y);
    MagBound(n);
    v1 := Euclid(ta, n);
    Normalize(v1, n, zero);
    AnsweredBy(a.Value(), x, y);
  }

  lemma AnsweredBy(a: int, x: nat, n: nat)
    requires 0 < x < n < Capacity() && x == a % n && n > 1 && Coprime(x, n)
    ensures Answered(a, n, Coefficient(x, n) % n)
  {
    hide Capacity, Cong, Coprime, Coefficient, RunFits, Headroom;
    if Headroom(n) { HeadroomFits(x, n); }
    if RunFits(Start(x, n), x, n) {
      InverseWhen(x, n);
      CongRemainder(a, n);
      CongRemainder(Coefficient(x, n), n);
      InverseOf(a, Coefficient(x, n), Coefficient(x, n) % n, x, n);
    }
  }

  /** The start values of the six running numbers, and the loop over them. */
  method Euclid(ta: Bn, n: Bn) returns (v1: Bn)
    requires ta.Valid() && n.Valid() && ta.s == 1 && n.s == 1 && ta.Mag() > 0 && n.Mag() > 0
    ensures fresh(v1) && v1.Valid() && v1.Value() == Coefficient(ta.Mag(), n.Mag())
  {
    hide Val, Capacity, Ended;
    ghost var x, y := ta.Mag(), n.Mag();
    var tu := new Bn.Copy(ta);
    var tb := new Bn.Copy(n);
    var tv := new Bn.Copy(n);
    var u1 := new Bn.OfInt(1);
    var u2 := new Bn.OfInt(0);
    v1 := new Bn.OfInt(0);
    var v2 := new Bn.OfInt(1);
    Loop(tu, u1, u2, tv, v1, v2, ta, tb, x, y);
  }

  lemma ResidueOf(a: Bn, n: Bn, x: int)
    requires a.Valid() && n.Valid() && n.Value() > 1 && IsGcd(1, a.Mag(), n.Mag())
    requires x == Residue(a.s, a.Mag(), n.Mag())
    ensures x == a.Value() % n.Mag() && 0 <= x < n.Mag() && Cong(x, a.Value(), n.Mag())
    ensures a.Mag() == if a.Value() >= 0 then a.Value() else -a.Value()
  {
    var m := n.Mag();
    if a.Mag() == 0 {
      DividesSelf(m);
      DividesZero(m);
      DividesBound(m, 1);
    }
    CongRemainder(a.Value(), m);
  }

  lemma InverseOf(a: int, v: int, w: int, x: int, n: int)
    requires Cong(x, a, n) && Cong(w, v, n) && Cong(v * x, 1, n)
    ensures Cong(a * w, 1, n)
  {
    CongSym(x, a, n);
    CongMul(a, x, w, v, n);
    CongTrans(a * w, x * v, 1, n);
  }
}
