/** crypto/bn.c: pow_mod_faster, right-to-left square and multiply. */
module BignumPower {
  import opened Arith
  import opened Bits
  import opened Limbs
  import opened NumberTheory
  import opened Bignum
  import opened BignumShift
  import opened BignumDivide

  lemma {:induction false} PowSquare(x: nat, k: nat)
    ensures Pow(x * x, k) == Pow(x, 2 * k)
  {
    if k != 0 {
      PowSquare(x, k - 1);
      assert Pow(x, 2 * k) == x * (x * Pow(x, 2 * k - 2));
      Assoc(x, x, Pow(x, 2 * k - 2));
    }
  }

  lemma {:induction false} CongPow(x: nat, y: nat, k: nat, m: int)
    requires Cong(x, y, m)
    ensures Cong(Pow(x, k), Pow(y, k), m)
  {
    if k == 0 {
      CongRefl(1, m);
    } else {
      CongPow(x, y, k - 1, m);
      CongMul(x, y, Pow(x, k - 1), Pow(y, k - 1), m);
    }
  }

  /** What is left to multiply: res * ta^tb is the answer, modulo n. */
  ghost predicate Powering(x: nat, y: nat, n: nat, res: nat, ta: nat, tb: nat)
  {
    n > 1 && res < n && Cong(res * Pow(ta, tb), Pow(x, y), n)
  }

  lemma PoweringStart(x: nat, y: nat, n: nat)
    requires n > 1
    ensures Powering(x, y, n, 1, x, y)
  {
    CongRefl(Pow(x, y), n);
  }

  /** A one bit goes into the result; the exponent loses it. */
  lemma PoweringMultiply(x: nat, y: nat, n: nat, res: nat, ta: nat, tb: nat)
    requires Powering(x, y, n, res, ta, tb) && tb % 2 == 1
    ensures Powering(x, y, n, (res * ta) % n, ta, tb - 1)
  {
    MulNonNeg(res, ta);
    var r, p := (res * ta) % n, Pow(ta, tb - 1);
    CongRemainder(res * ta, n);
    CongScale(r, res * ta, p, n);
    Assoc(res, ta, p);
    CongTrans(r * p, res * Pow(ta, tb), Pow(x, y), n);
  }

  /** Squaring the base halves an even exponent. */
  lemma PoweringSquare(x: nat, y: nat, n: nat, res: nat, ta: nat, tb: nat)
    requires Powering(x, y, n, res, ta, tb) && tb % 2 == 0
    ensures Powering(x, y, n, res, (ta * ta) % n, tb / 2)
  {
    hide Pow;
    var t, h := (ta * ta) % n, tb / 2;
    CongRemainder(ta * ta, n);
    MulNonNeg(ta, ta);
    CongPow(t, ta * ta, h, n);
    PowSquare(ta, h);
    CongScale(Pow(t, h), Pow(ta, tb), res, n);
    CongTrans(res * Pow(t, h), res * Pow(ta, tb), Pow(x, y), n);
  }

  lemma PoweringEnd(x: nat, y: nat, n: nat, res: nat, ta: nat)
    requires Powering(x, y, n, res, ta, 0)
    ensures res == Pow(x, y) % n
  {
    CongSym(res, Pow(x, y), n);
    CongMod(Pow(x, y), res, n);
  }

  /** Products of the base and of residues fit the array before they are reduced. */
  ghost predicate Roomy(t: nat, n: nat)
  {
    t * t < Capacity() && t * n < Capacity() && n * n < Capacity()
  }

  lemma RoomyProducts(t: nat, n: nat, res: nat)
    requires Roomy(t, n) && res < n
    ensures res * t < Capacity() && t * t < Capacity()
  {
    hide Capacity;
    MulLe(t, res, n);
  }

  lemma ReducedRoomy(t: nat, n: nat)
    requires Roomy(t, n) && n > 0
    ensures Roomy((t * t) % n, n)
  {
    hide Capacity;
    MulNonNeg(t, t);
    var r := (t * t) % n;
    ProductBound(r, r, n);
    MulLe(n, r, n);
  }

  /** `bignum_mul(x, y, &tmp); bignum_mod(&tmp, n, r)` */
  method MulMod(x: Bn, y: Bn, tmp: Bn, n: Bn, r: Bn)
    requires x.Valid() && y.Valid() && tmp.Valid() && n.Valid() && r.Valid()
    requires tmp !in {x, y, n, r} && r != n
    requires n.Value() > 1 && x.Mag() * y.Mag() < Capacity() && x.s == 1 && y.s == 1
    modifies tmp, r
    ensures tmp.Valid() && r.Valid() && r.s == 1
    ensures r.Mag() == (old(x.Mag()) * old(y.Mag())) % n.Mag()
  {
    hide Val, Capacity, Cong;
    MulNonNeg(x.Mag(), y.Mag());
    Mul(x, y, tmp);
    Mod(tmp, n, r);
    ResiduePositive(tmp.Mag(), n.Mag());
  }

  lemma ResiduePositive(x: nat, m: nat)
    requires m > 0
    ensures Residue(1, x, m) == x % m
  {
  }

  /** The body of the loop of pow_mod_faster: multiply on a one bit, drop the
      bit, and square unless no bit is left. */
  method PowStep(ta: Bn, tb: Bn, tmp: Bn, n: Bn, res: Bn, ghost x: nat, ghost y: nat) returns (done: bool)
    requires ta.Valid() && tb.Valid() && tmp.Valid() && n.Valid() && res.Valid()
    requires ta !in {tb, tmp, n, res} && tb !in {tmp, n, res} && tmp !in {n, res} && n != res
    requires ta.s == 1 && res.s == 1 && n.s == 1 && Roomy(ta.Mag(), n.Mag())
    requires Powering(x, y, n.Mag(), res.Mag(), ta.Mag(), tb.Mag())
    modifies ta, tb, tmp, res
    ensures ta.Valid() && tb.Valid() && tmp.Valid() && res.Valid()
    ensures ta.s == 1 && res.s == 1
    ensures done ==> res.Mag() == Pow(x, y) % n.Mag()
    ensures !done ==> Powering(x, y, n.Mag(), res.Mag(), ta.Mag(), tb.Mag()) && tb.Mag() < old(tb.Mag())
    ensures !done ==> Roomy(ta.Mag(), n.Mag())
  {
    hide Val, Pow, Capacity, Powering, Roomy;
    ghost var m, e := n.Mag(), tb.Mag();
    PoweringFacts(x, y, m, res.Mag(), ta.Mag(), e);
    RoomyProducts(ta.Mag(), m, res.Mag());
    LowBitOf(tb.d);
    if tb.d[0] % 2 == 1 {
      PoweringMultiply(x, y, m, res.Mag(), ta.Mag(), e);
      MulMod(res, ta, tmp, n, res);
      e := e - 1;
    }
    assert Pow2(1) == 2;
    Rshift(tb, tmp, 1);
    Assign(tb, tmp);
    PoweringSquare(x, y, m, res.Mag(), ta.Mag(), e);
    done := IsZero(tb);
    if done {
      PoweringEnd(x, y, m, res.Mag(), (ta.Mag() * ta.Mag()) % m);
    } else {
      ReducedRoomy(ta.Mag(), m);
      MulMod(ta, ta, tmp, n, ta);
    }
  }

  /** pow_mod_faster: res = a^b % n, for every exponent b. */
  method PowModFaster(a: Bn, b: Bn, n: Bn, res: Bn)
    requires a.Valid() && b.Valid() && n.Valid() && res.Valid()
    requires res != n
    requires n.Value() > 1 && a.s == 1 && Roomy(a.Mag(), n.Mag())
    modifies res
    ensures res.Valid() && res.s == 1
    ensures res.Mag() == Pow(old(a.Mag()), old(b.Mag())) % n.Mag()
  {
    hide Val, Pow, Capacity, Powering, Roomy;
    ghost var x, y, m := a.Mag(), b.Mag(), n.Mag();
    var ta := new Bn.Copy(a);
    var tb := new Bn.Copy(b);
    var tmp := new Bn();
    FromInt(res, 1);
    PoweringStart(x, y, m);
    var done := false;
    while !done
      invariant ta.Valid() && tb.Valid() && tmp.Valid() && res.Valid() && n.Valid()
      invariant ta.s == 1 && res.s == 1 && n.s == 1 && n.Mag() == m
      invariant done ==> res.Mag() == Pow(x, y) % m
      invariant !done ==> Powering(x, y, m, res.Mag(), ta.Mag(), tb.Mag()) && Roomy(ta.Mag(), m)
      decreases !done, tb.Mag()
    {
      done := PowStep(ta, tb, tmp, n, res, x, y);
    }
  }

  lemma PoweringFacts(x: nat, y: nat, n: nat, res: nat, ta: nat, tb: nat)
    requires Powering(x, y, n, res, ta, tb)
    ensures n > 1 && res < n
  {
  }
}
