/** crypto/bn.c: sign-magnitude numbers of N bytes, updated in place.  A struct
    bn is one object; its embedded array is the field `d`. */
module Bignum {
  import opened Arith
  import opened Bits
  import opened Limbs
  import opened Machine

  /** BN_ARRAY_SIZE, 512 in include/crypto/bn.h; bignum_from_int writes four words. */
  type ArraySize = n: nat | 4 <= n witness 512
  const N: ArraySize

  const BYTE: int := 256

  type Sign = x: int | x == 1 || x == -1 witness 1

  /** One more than the largest magnitude. */
  ghost function Capacity(): (r: int) { Pow(BYTE, N) }

  ghost predicate Fits(v: int) { -Capacity() < v < Capacity() }

  class Bn {
    var s: Sign
    var d: seq<byte>

    ghost predicate Valid()
      reads this
    {
      |d| == N
    }

    ghost function Mag(): (m: nat)
      reads this
    {
      Val(d, BYTE)
    }

    ghost function Value(): (v: int)
      reads this
    {
      if s == 1 then Mag() else 0 - Mag()
    }

    ghost function Number(): (n: Num)
      reads this
    {
      Num(s, Mag())
    }

    /** Zero carries the positive sign. */
    ghost predicate Canonical()
      reads this
    {
      Mag() == 0 ==> s == 1
    }

    /** bignum_init */
    constructor ()
      ensures Valid() && d == Zeros() && s == 1 && Mag() == 0
    {
      s := 1;
      d := Zeros();
      ValZeros(Zeros(), BYTE);
    }

    /** A local initialized by bignum_assign. */
    constructor Copy(src: Bn)
      requires src.Valid()
      ensures Valid() && d == src.d && s == src.s
    {
      s := src.s;
      d := src.d;
    }

    /** A local initialized by bignum_from_int. */
    constructor OfInt(i: u32)
      ensures Valid() && s == 1 && Mag() == i
    {
      s := 1;
      d := Zeros();
      new;
      FromInt(this, i);
    }
  }

  function Zeros(): (z: seq<byte>)
    ensures |z| == N
  {
    seq(N, _ => 0)
  }

  lemma MagBound(a: Bn)
    requires a.Valid()
    ensures a.Mag() < Capacity()
  {
    ValBound(a.d, BYTE);
  }

  /** bignum_init */
  method Init(n: Bn)
    requires n.Valid()
    modifies n
    ensures n.Valid() && n.d == Zeros() && n.s == 1 && n.Mag() == 0
  {
    for i := 0 to N
      invariant n.Valid()
      invariant forall k :: 0 <= k < i ==> n.d[k] == 0
    {
      n.d := n.d[i := 0];
    }
    n.s := 1;
    assert n.d == Zeros();
    ValZeros(n.d, BYTE);
  }

  /** bignum_assign */
  method Assign(dst: Bn, src: Bn)
    requires dst.Valid() && src.Valid()
    modifies dst
    ensures dst.Valid() && dst.d == old(src.d) && dst.s == old(src.s)
  {
    ghost var S := src.d;
    for i := 0 to N
      invariant dst.Valid() && src.d == S
      invariant forall k :: 0 <= k < i ==> dst.d[k] == S[k]
      invariant dst == src ==> dst.d == S
      invariant src.s == old(src.s)
    {
      dst.d := dst.d[i := src.d[i]];
      assert dst == src ==> dst.d == S;
    }
    assert dst.d == S;
    dst.s := src.s;
  }

  /** `tmp = a + b + carry; carry = tmp > MAX_VAL; tmp & MAX_VAL` */
  method AddWord(x: byte, y: byte, carry: byte) returns (r: byte, carry': byte)
    requires carry <= 1
    ensures carry' <= 1
    ensures x as int + y as int + carry as int == r as int + carry' * BYTE
  {
    var tmp: int := x as int + y as int + carry as int;
    carry' := if tmp > 255 then 1 else 0;
    r := tmp % 256;
  }

  /** `res = (a + 256) - (b + borrow); res & MAX_VAL; borrow = res <= MAX_VAL` */
  method SubWord(x: byte, y: byte, borrow: byte) returns (r: byte, borrow': byte)
    requires borrow <= 1
    ensures borrow' <= 1
    ensures x as int - y as int - borrow as int == r as int - borrow' * BYTE
  {
    var res: int := (x as int + 256) - (y as int + borrow as int);
    r := res % 256;
    borrow' := if res <= 255 then 1 else 0;
  }

  /** bignum_add_abs: the sum of the magnitudes, modulo the capacity. */
  method AddAbs(a: Bn, b: Bn, c: Bn) returns (ghost carry: nat)
    requires a.Valid() && b.Valid() && c.Valid()
    modifies c`d
    ensures c.Valid()
    ensures carry <= 1
    ensures c.Mag() + carry * Capacity() == old(a.Mag() + b.Mag())
  {
    hide Val, Pow;
    ghost var A: seq<nat>, B: seq<nat>, Z: seq<nat> := a.d, b.d, [];
    var cy: byte := 0;
    ValEmpty(BYTE);
    for i := 0 to N
      invariant c.Valid() && a.Valid() && b.Valid()
      invariant cy <= 1 && |Z| == i
      invariant forall k :: 0 <= k < i ==> c.d[k] == Z[k]
      invariant forall k :: i <= k < N ==> a.d[k] == A[k]
      invariant forall k :: i <= k < N ==> b.d[k] == B[k]
      invariant Val(Z, BYTE) + cy * Pow(BYTE, i) == Val(A[..i], BYTE) + Val(B[..i], BYTE)
    {
      var r, cy' := AddWord(a.d[i], b.d[i], cy);
      AddStep(A, B, Z, cy, r, cy', BYTE);
      c.d, cy, Z := c.d[i := r], cy', Z + [r];
    }
    assert A[..N] == A && B[..N] == B;
    assert c.d == Z;
    carry := cy;
  }

  /** bignum_sub_abs: the difference of the magnitudes, modulo the capacity. */
  method SubAbs(a: Bn, b: Bn, c: Bn) returns (ghost borrow: nat)
    requires a.Valid() && b.Valid() && c.Valid()
    modifies c`d
    ensures c.Valid()
    ensures borrow <= 1
    ensures c.Mag() == old(a.Mag() - b.Mag()) + borrow * Capacity()
  {
    hide Val, Pow;
    ghost var A: seq<nat>, B: seq<nat>, Z: seq<nat> := a.d, b.d, [];
    var bw: byte := 0;
    ValEmpty(BYTE);
    for i := 0 to N
      invariant c.Valid() && a.Valid() && b.Valid()
      invariant bw <= 1 && |Z| == i
      invariant forall k :: 0 <= k < i ==> c.d[k] == Z[k]
      invariant forall k :: i <= k < N ==> a.d[k] == A[k]
      invariant forall k :: i <= k < N ==> b.d[k] == B[k]
      invariant Val(A[..i], BYTE) + bw * Pow(BYTE, i) == Val(Z, BYTE) + Val(B[..i], BYTE)
    {
      var r, bw' := SubWord(a.d[i], b.d[i], bw);
      SubStep(A, B, Z, bw, r, bw', BYTE);
      c.d, bw, Z := c.d[i := r], bw', Z + [r];
    }
    assert A[..N] == A && B[..N] == B;
    assert c.d == Z;
    borrow := bw;
  }

  /** bignum_cmp_abs */
  method CmpAbs(a: Bn, b: Bn) returns (c: int)
    requires a.Valid() && b.Valid()
    ensures c == SignOf(a.Mag() - b.Mag())
  {
    hide Val;
    var i := N;
    while i != 0
      invariant 0 <= i <= N
      invariant a.d[i..] == b.d[i..]
    {
      i := i - 1;
      if a.d[i] > b.d[i] {
        ValTopLess(b.d, a.d, i, BYTE);
        return 1;
      } else if a.d[i] < b.d[i] {
        ValTopLess(a.d, b.d, i, BYTE);
        return -1;
      }
      assert a.d[i..] == [a.d[i]] + a.d[i + 1..];
      assert b.d[i..] == [b.d[i]] + b.d[i + 1..];
    }
    assert a.d == a.d[0..] && b.d == b.d[0..];
    return 0;
  }

  /** bignum_cmp: signs first, then magnitudes; the order of the values for
      canonical numbers. */
  method Cmp(a: Bn, b: Bn) returns (c: int)
    requires a.Valid() && b.Valid()
    ensures c == if a.s != b.s then a.s else a.s * SignOf(a.Mag() - b.Mag())
    ensures a.Canonical() && b.Canonical() ==> c == SignOf(a.Value() - b.Value())
  {
    if a.s > 0 && b.s < 0 {
      return 1;
    }
    if b.s > 0 && a.s < 0 {
      return -1;
    }
    var m := CmpAbs(a, b);
    return if m > 0 then a.s else if m < 0 then 0 - a.s else 0;
  }

  /** bignum_is_zero */
  method IsZero(n: Bn) returns (zero: bool)
    requires n.Valid()
    ensures zero <==> n.Mag() == 0
  {
    hide Val;
    for i := 0 to N
      invariant forall k :: 0 <= k < i ==> n.d[k] == 0
    {
      if n.d[i] != 0 {
        ValPositive(n.d, i, BYTE);
        return false;
      }
    }
    ValZeros(n.d, BYTE);
    return true;
  }

  /** The loser of a magnitude comparison is subtracted without borrow. */
  method SubAbsExact(a: Bn, b: Bn, c: Bn)
    requires a.Valid() && b.Valid() && c.Valid()
    requires b.Mag() <= a.Mag()
    modifies c`d
    ensures c.Valid()
    ensures c.Mag() == old(a.Mag() - b.Mag())
  {
    hide Val, Pow;
    ghost var x: int := a.Mag() - b.Mag();
    MagBound(a);
    var borrow := SubAbs(a, b, c);
    MagBound(c);
    CarryFixed(c.Mag(), -borrow, Capacity(), x);
  }

  /** The sign that bignum_add_sub gives a sum, negative zeros included. */
  function SumSign(s: Sign, x: nat, t: int, y: nat): (r: Sign)
  {
    if s == t then s else if x == y then 1 else if x > y then s else Negate(s)
  }

  /** The magnitude that goes with it. */
  function SumMag(s: Sign, x: nat, t: int, y: nat): (r: nat)
  {
    if s == t then x + y else if x >= y then x - y else y - x
  }

  /** A sign and a magnitude: a number as the arrays hold it, negative zero included. */
  datatype Num = Num(s: Sign, m: nat)

  function ValueOf(a: Num): (v: int)
  {
    if a.s == 1 then a.m else 0 - a.m
  }

  function Negated(a: Num): (n: Num)
  {
    Num(Negate(a.s), a.m)
  }

  /** A magnitude below twice the capacity, as far as the array holds it. */
  ghost function Held(m: nat): (r: nat)
  {
    if m < Capacity() then m else m - Capacity()
  }

  /** A sum as bignum_add_sub leaves it. */
  ghost function Sum(a: Num, b: Num): (c: Num)
  {
    Num(SumSign(a.s, a.m, b.s, b.m), Held(SumMag(a.s, a.m, b.s, b.m)))
  }

  /** It is the sum of the values if and only if that fits the array. */
  lemma SumExact(a: Num, b: Num)
    requires a.m < Capacity() && b.m < Capacity()
    ensures ValueOf(Sum(a, b)) == ValueOf(a) + ValueOf(b) <==> Fits(ValueOf(a) + ValueOf(b))
    ensures Sum(a, b).m < Capacity()
    ensures Fits(ValueOf(a) + ValueOf(b)) && Sum(a, b).m == 0 && Sum(a, b).s == -1 ==> a == b == Num(-1, 0)
  {
    hide Capacity;
  }

  /** bignum_add_sub, operands and result possibly the same. */
  method AddSub(a: Bn, b: Bn, c: Bn, flip: Sign)
    requires a.Valid() && b.Valid() && c.Valid()
    modifies c
    ensures c.Valid()
    ensures c.Number() == old(Sum(a.Number(), if flip == 1 then b.Number() else Negated(b.Number())))
  {
    hide Val, Pow, Capacity;
    var s: Sign := a.s;
    ghost var x, y := a.Mag(), b.Mag();
    SignProducts(a.s, b.s, flip);
    MagBound(a);
    MagBound(b);
    if a.s * b.s * flip < 0 {
      var cmp := CmpAbs(a, b);
      if cmp >= 0 {
        SubAbsExact(a, b, c);
        c.s := if cmp == 0 then 1 else s;
      } else {
        SubAbsExact(b, a, c);
        c.s := Negate(s);
      }
    } else {
      var carry := AddAbs(a, b, c);
      MagBound(c);
      c.s := s;
    }
  }

  lemma SignProducts(s: Sign, t: Sign, flip: Sign)
    ensures s * t * flip < 0 <==> s != if flip == 1 then t else Negate(t)
  {
  }

  function Negate(s: Sign): (r: Sign)
    ensures r == -(s as int)
  {
    if s == 1 then -1 else 1
  }

  /** bignum_add: the sum when it fits, and what the array keeps of it otherwise. */
  method Add(a: Bn, b: Bn, c: Bn)
    requires a.Valid() && b.Valid() && c.Valid()
    modifies c
    ensures c.Valid()
    ensures c.Number() == old(Sum(a.Number(), b.Number()))
    ensures c.Value() == old(a.Value() + b.Value()) <==> old(Fits(a.Value() + b.Value()))
    ensures old(a.Canonical() && b.Canonical() && Fits(a.Value() + b.Value())) ==> c.Canonical()
  {
    hide Val, Pow, Capacity, Sum;
    MagBound(a);
    MagBound(b);
    SumExact(a.Number(), b.Number());
    AddSub(a, b, c, 1);
  }

  /** bignum_sub: the difference when it fits, and what the array keeps of it otherwise. */
  method Sub(a: Bn, b: Bn, c: Bn)
    requires a.Valid() && b.Valid() && c.Valid()
    modifies c
    ensures c.Valid()
    ensures c.Number() == old(Sum(a.Number(), Negated(b.Number())))
    ensures c.Value() == old(a.Value() - b.Value()) <==> old(Fits(a.Value() - b.Value()))
    ensures old(a.Canonical() && b.Canonical() && Fits(a.Value() - b.Value())) ==> c.Canonical()
  {
    hide Val, Pow, Capacity, Sum;
    MagBound(a);
    MagBound(b);
    SumExact(a.Number(), Negated(b.Number()));
    AddSub(a, b, c, -1);
  }

  /** bignum_from_int (WORD_SIZE 1) */
  method FromInt(n: Bn, i: u32)
    requires n.Valid()
    modifies n
    ensures n.Valid() && n.s == 1 && n.Mag() == i
  {
    hide Val, And;
    Init(n);
    ByteMasks(i);
    var b0: byte := And(i, 0x0000_00FF);
    var b1: byte := And(i, 0x0000_FF00) / 0x100;
    var b2: byte := And(i, 0x00FF_0000) / 0x1_0000;
    var b3: byte := And(i, 0xFF00_0000) / 0x100_0000;
    n.d := n.d[0 := b0][1 := b1][2 := b2][3 := b3];
    FourBytes(n.d, b0, b1, b2, b3);
  }

  lemma ByteMasks(i: u32)
    ensures 0 <= And(i, 0x0000_00FF) < 256
    ensures 0 <= And(i, 0x0000_FF00) / 0x100 < 256
    ensures 0 <= And(i, 0x00FF_0000) / 0x1_0000 < 256
    ensures 0 <= And(i, 0xFF00_0000) / 0x100_0000 < 256
    ensures And(i, 0x0000_00FF) + 0x100 * (And(i, 0x0000_FF00) / 0x100)
          + 0x1_0000 * (And(i, 0x00FF_0000) / 0x1_0000) + 0x100_0000 * (And(i, 0xFF00_0000) / 0x100_0000) == i
  {
    hide And, Pow2;
    Masks(i);
    var q1, q2, q3 := i / 0x100, i / 0x1_0000, i / 0x100_0000;
    assert i % 0x1_0000 - i % 0x100 == 0x100 * (q1 - 0x100 * q2);
    assert i % 0x100_0000 - i % 0x1_0000 == 0x1_0000 * (q2 - 0x100 * q3);
  }

  lemma Masks(i: u32)
    ensures And(i, 0x0000_00FF) == i % 0x100
    ensures And(i, 0x0000_FF00) == i % 0x1_0000 - i % 0x100
    ensures And(i, 0x00FF_0000) == i % 0x100_0000 - i % 0x1_0000
    ensures And(i, 0xFF00_0000) == i - i % 0x100_0000
  {
    hide And;
    Pow2Literals();
    Pow2Add(8, 16);
    AndLowMask(i, 8);
    AndHighMask(i, 8, 16);
    AndHighMask(i, 16, 24);
    AndHighMask(i, 24, 32);
  }

  lemma FourBytes(d: seq<byte>, b0: byte, b1: byte, b2: byte, b3: byte)
    requires |d| == N && d[0] == b0 && d[1] == b1 && d[2] == b2 && d[3] == b3
    requires forall k :: 4 <= k < N ==> d[k] == 0
    ensures Val(d, BYTE) == b0 + 0x100 * b1 + 0x1_0000 * b2 + 0x100_0000 * b3
  {
    hide Val;
    assert d[0..] == d;
    ValSuffix(d, 0, BYTE);
    ValSuffix(d, 1, BYTE);
    ValSuffix(d, 2, BYTE);
    ValSuffix(d, 3, BYTE);
    ValZeros(d[4..], BYTE);
  }

  lemma LowBitOf(d: seq<byte>)
    requires |d| > 0
    ensures Val(d, BYTE) % 2 == d[0] % 2
  {
    assert Val(d, BYTE) == d[0] + 2 * (128 * Val(d[1..], BYTE));
  }
}
