/** crypto/curve25519.c: bytes to field elements and back, addition,
    subtraction and inversion. */
module Curve25519 {
  import opened Arith
  import opened Bits
  import opened Curve25519Mul
  import opened Limbs
  import opened Machine
  import opened NumberTheory

  /** Every limb within its 26 or 25 bits. */
  ghost predicate Carried(f: Limbs10) { Bounded(f, 0x3FF_FFFF, 0x1FF_FFFF) }

  /** fe_add */
  function Add(f: Limbs10, g: Limbs10): (h: Limbs10)
    requires Tight(f) && Tight(g)
    ensures Loose(h) && Value(h) == Value(f) + Value(g)
  {
    Plus(f, g)
  }

  /** fe_sub: twice the prime keeps every limb from going below zero. */
  function Sub(f: Limbs10, g: Limbs10): (h: Limbs10)
    requires Tight(f) && Tight(g)
    ensures Loose(h) && Value(h) == Value(f) - Value(g) + 2 * P
  {
    Limbs10(0x7FF_FFDA + f.v0 - g.v0, 0x3FF_FFFE + f.v1 - g.v1,
            0x7FF_FFFE + f.v2 - g.v2, 0x3FF_FFFE + f.v3 - g.v3,
            0x7FF_FFFE + f.v4 - g.v4, 0x3FF_FFFE + f.v5 - g.v5,
            0x7FF_FFFE + f.v6 - g.v6, 0x3FF_FFFE + f.v7 - g.v7,
            0x7FF_FFFE + f.v8 - g.v8, 0x3FF_FFFE + f.v9 - g.v9)
  }

  /** Carried limbs are determined by their number. */
  lemma CarriedUnique(f: Limbs10, g: Limbs10)
    requires Carried(f) && Carried(g) && Value(f) == Value(g)
    ensures f == g
  {
    var f9, g9 := f.v9, g.v9;
    var f8, g8 := f.v8 + W1 * f9, g.v8 + W1 * g9;
    var f7, g7 := f.v7 + 0x200_0000 * f8, g.v7 + 0x200_0000 * g8;
    var f6, g6 := f.v6 + W1 * f7, g.v6 + W1 * g7;
    var f5, g5 := f.v5 + 0x200_0000 * f6, g.v5 + 0x200_0000 * g6;
    var f4, g4 := f.v4 + W1 * f5, g.v4 + W1 * g5;
    var f3, g3 := f.v3 + 0x200_0000 * f4, g.v3 + 0x200_0000 * g4;
    var f2, g2 := f.v2 + W1 * f3, g.v2 + W1 * g3;
    var f1, g1 := f.v1 + 0x200_0000 * f2, g.v1 + 0x200_0000 * g2;
    Peel(f.v0, g.v0, f1, g1, W1);
    Peel(f.v1, g.v1, f2, g2, 0x200_0000);
    Peel(f.v2, g.v2, f3, g3, W1);
    Peel(f.v3, g.v3, f4, g4, 0x200_0000);
    Peel(f.v4, g.v4, f5, g5, W1);
    Peel(f.v5, g.v5, f6, g6, 0x200_0000);
    Peel(f.v6, g.v6, f7, g7, W1);
    Peel(f.v7, g.v7, f8, g8, 0x200_0000);
    Peel(f.v8, g.v8, f9, g9, W1);
  }

  /** subborrow_u26 */
  method SubBorrow26(c: u32, a: u32, b: u32) returns (borrow: u32, low: u32)
    requires -0x400_0000 <= a - b - c < 0x400_0000
    ensures a - b - c == low - 0x400_0000 * borrow && low < 0x400_0000 && borrow <= 1
  {
    var x := (a - b - c) % 0x1_0000_0000;
    low := x % 0x400_0000;
    borrow := x / 0x8000_0000;
  }

  /** subborrow_u25 */
  method SubBorrow25(c: u32, a: u32, b: u32) returns (borrow: u32, low: u32)
    requires -0x200_0000 <= a - b - c < 0x200_0000
    ensures a - b - c == low - 0x200_0000 * borrow && low < 0x200_0000 && borrow <= 1
  {
    var x := (a - b - c) % 0x1_0000_0000;
    low := x % 0x200_0000;
    borrow := x / 0x8000_0000;
  }

  /** addcarryx_u26 */
  method AddCarry26(c: u32, a: u32, b: u32) returns (carry: u32, low: u32)
    requires a + b + c < 2 * 0x400_0000
    ensures a + b + c == low + 0x400_0000 * carry && low < 0x400_0000 && carry <= 1
  {
    var x := a + b + c;
    low := x % 0x400_0000;
    carry := (x / 0x400_0000) % 2;
  }

  /** addcarryx_u25 */
  method AddCarry25(c: u32, a: u32, b: u32) returns (carry: u32, low: u32)
    requires a + b + c < 2 * 0x200_0000
    ensures a + b + c == low + 0x200_0000 * carry && low < 0x200_0000 && carry <= 1
  {
    var x := a + b + c;
    low := x % 0x200_0000;
    carry := (x / 0x200_0000) % 2;
  }

  /** cmovznz32 */
  function Cmovznz32(t: u32, z: u32, nz: u32): (r: u32)
    ensures r == if t != 0 then nz else z
  {
    var mask: u32 := if t != 0 then 0xFFFF_FFFF else 0;
    AllOrNothing(nz);
    AllOrNothing(z);
    Or(And(mask, nz), And(0xFFFF_FFFF - mask, z))
  }

  lemma AllOrNothing(x: u32)
    ensures And(0xFFFF_FFFF, x) == x && And(0, x) == 0 && Or(x, 0) == x && Or(0, x) == x
  {
    hide And, Or, Pow2;
    Pow2Literals();
    AndLowMask(x, 32);
    AndZero(x);
    OrZero(x);
  }

  /** The borrow chain of fe_freeze: subtract the prime. */
  method SubtractPrime(f: Limbs10) returns (s: Limbs10, borrow: u32)
    requires Tight(f)
    ensures Carried(s) && borrow <= 1
    ensures Value(s) - TWO255 * borrow == Value(f) - P
  {
    var c: u32, s0: u32, s1: u32, s2: u32, s3: u32, s4: u32, s5: u32, s6: u32, s7: u32, s8: u32, s9: u32;
    c, s0 := SubBorrow26(0, f.v0, 0x3FF_FFED);
    c, s1 := SubBorrow25(c, f.v1, 0x1FF_FFFF);
    c, s2 := SubBorrow26(c, f.v2, 0x3FF_FFFF);
    c, s3 := SubBorrow25(c, f.v3, 0x1FF_FFFF);
    c, s4 := SubBorrow26(c, f.v4, 0x3FF_FFFF);
    c, s5 := SubBorrow25(c, f.v5, 0x1FF_FFFF);
    c, s6 := SubBorrow26(c, f.v6, 0x3FF_FFFF);
    c, s7 := SubBorrow25(c, f.v7, 0x1FF_FFFF);
    c, s8 := SubBorrow26(c, f.v8, 0x3FF_FFFF);
    borrow, s9 := SubBorrow25(c, f.v9, 0x1FF_FFFF);
    s := Limbs10(s0, s1, s2, s3, s4, s5, s6, s7, s8, s9);
  }

  /** The carry chain of fe_freeze: add the prime back, or nothing. */
  method AddMasked(s: Limbs10, low: u32, odd: u32, even: u32) returns (h: Limbs10, ghost carry: nat)
    requires Carried(s) && low <= 0x3FF_FFFF && odd <= 0x1FF_FFFF && even <= 0x3FF_FFFF
    ensures Carried(h)
    ensures Value(h) + TWO255 * carry
         == Value(s) + Value(Limbs10(low, odd, even, odd, even, odd, even, odd, even, odd))
  {
    var c: u32, h0: u32, h1: u32, h2: u32, h3: u32, h4: u32, h5: u32, h6: u32, h7: u32, h8: u32, h9: u32;
    c, h0 := AddCarry26(0, s.v0, low);
    c, h1 := AddCarry25(c, s.v1, odd);
    c, h2 := AddCarry26(c, s.v2, even);
    c, h3 := AddCarry25(c, s.v3, odd);
    c, h4 := AddCarry26(c, s.v4, even);
    c, h5 := AddCarry25(c, s.v5, odd);
    c, h6 := AddCarry26(c, s.v6, even);
    c, h7 := AddCarry25(c, s.v7, odd);
    c, h8 := AddCarry26(c, s.v8, even);
    c, h9 := AddCarry25(c, s.v9, odd);
    h := Limbs10(h0, h1, h2, h3, h4, h5, h6, h7, h8, h9);
    carry := c;
  }

  lemma CarriedBelow(f: Limbs10)
    requires Carried(f)
    ensures 0 <= Value(f) < TWO255
  {
  }

  lemma TightBelow(f: Limbs10)
    requires Tight(f)
    ensures 0 <= Value(f) < 2 * P
  {
  }

  lemma MaskedPrime(mask: u32)
    requires mask == 0 || mask == 0xFFFF_FFFF
    ensures And(mask, 0x3FF_FFED) == if mask == 0 then 0 else 0x3FF_FFED
    ensures And(mask, 0x1FF_FFFF) == if mask == 0 then 0 else 0x1FF_FFFF
    ensures And(mask, 0x3FF_FFFF) == if mask == 0 then 0 else 0x3FF_FFFF
    ensures Value(Limbs10(0, 0, 0, 0, 0, 0, 0, 0, 0, 0)) == 0
    ensures Value(Limbs10(0x3FF_FFED, 0x1FF_FFFF, 0x3FF_FFFF, 0x1FF_FFFF, 0x3FF_FFFF,
                          0x1FF_FFFF, 0x3FF_FFFF, 0x1FF_FFFF, 0x3FF_FFFF, 0x1FF_FFFF)) == P
  {
    hide And;
    AllOrNothing(0x3FF_FFED);
    AllOrNothing(0x1FF_FFFF);
    AllOrNothing(0x3FF_FFFF);
  }

  /** Subtract the prime, and add it back after a borrow. */
  lemma FreezeValue(v: int, s: int, borrow: int, h: int, carry: int)
    requires 0 <= v < 2 * P && 0 <= s < TWO255 && 0 <= h < TWO255 && (borrow == 0 || borrow == 1)
    requires s - TWO255 * borrow == v - P
    requires h + TWO255 * carry == s + if borrow == 0 then 0 else P
    ensures h == v % P
  {
    assert carry == borrow;
    DivModUnique(v, P, 1 - borrow, h);
  }

  /** fe_freeze: the representative below the prime. */
  method Freeze(f: Limbs10) returns (h: Limbs10)
    requires Tight(f)
    ensures Carried(h) && Value(h) == Value(f) % P
  {
    hide Value, And, Carried, Tight;
    TightBelow(f);
    var s, borrow := SubtractPrime(f);
    CarriedBelow(s);
    var mask := Cmovznz32(borrow, 0, 0xFFFF_FFFF);
    MaskedPrime(mask);
    ghost var carry;
    h, carry := AddMasked(s, And(mask, 0x3FF_FFED), And(mask, 0x1FF_FFFF), And(mask, 0x3FF_FFFF));
    CarriedBelow(h);
    FreezeValue(Value(f), Value(s), borrow, Value(h), carry);
  }

  lemma SmallPowers()
    ensures Pow2(1) == 2 && Pow2(2) == 4 && Pow2(3) == 8 && Pow2(4) == 16 && Pow2(5) == 32 && Pow2(6) == 64
    ensures Pow2(7) == 0x80 && Pow2(13) == 0x2000 && Pow2(19) == 0x8_0000 && Pow2(20) == 0x10_0000
  {
    assert Pow2(4) == 16;
    assert Pow2(8) == 256;
    Pow2Add(8, 5);
    Pow2Add(13, 6);
    Pow2Add(13, 7);
  }

  /** `lo | (hi << k)` when lo stays below bit k. */
  lemma Seam(lo: nat, hi: nat, k: nat)
    requires lo < Pow2(k)
    ensures Or(lo, hi * Pow2(k)) == lo + hi * Pow2(k)
  {
    hide Or;
    OrDisjoint(hi * Pow2(k), lo, k);
  }

  lemma Nest(h: nat, a: nat, b: nat)
    requires a > 0 && b > 0 && b * a > 0
    ensures h / (b * a) == (h / a) / b
  {
    var q, r := h / a, h % a;
    var q2, r2 := q / b, q % b;
    calc {
      h;
      a * (b * q2 + r2) + r;
      { Distrib(a, b * q2, r2); Assoc(a, b, q2); }
      (b * a) * q2 + (a * r2 + r);
    }
    MulLe(a, r2, b - 1);
    MulNonNeg(a, r2);
    DistribSub(a, b, 1);
    DivModUnique(h, b * a, q2, a * r2 + r);
  }

  /** What a limb gives to the byte it shares with the limb below. */
  function Rem(h: nat, a: nat): (r: nat)
    requires a > 0
    ensures r < a
  {
    h % a
  }

  /** A store to a uint8_t. */
  function Byte(x: nat): (b: byte)
  {
    x % 0x100
  }

  lemma ByteCases(x: nat)
    ensures Byte(x) == Rem(x, 0x100)
    ensures x < 0x100 ==> Byte(x) == x
  {
  }

  lemma LimbBytes(h: nat, a: nat)
    requires a > 0
    ensures h / a >= 0 && h / (0x100 * a) >= 0 && h / (0x1_0000 * a) >= 0
    ensures h == Rem(h, a) + a * Byte(h / a) + (0x100 * a) * Byte(h / (0x100 * a))
                 + (0x1_0000 * a) * (h / (0x1_0000 * a))
  {
    hide Byte;
    var q := h / a;
    DivNonNeg(h, a);
    Nest(h, a, 0x100);
    Nest(h, a, 0x1_0000);
    ThreeBytes(q);
    Weigh(h, a, q, Rem(h, a), Byte(q), Byte(q / 0x100), q / 0x1_0000);
  }

  lemma ThreeBytes(q: nat)
    ensures q == Byte(q) + 0x100 * Byte(q / 0x100) + 0x1_0000 * (q / 0x1_0000)
  {
  }

  lemma Weigh(h: int, a: int, q: int, r: int, b0: int, b1: int, b2: int)
    requires h == a * q + r && q == b0 + 0x100 * b1 + 0x1_0000 * b2
    ensures h == r + a * b0 + (0x100 * a) * b1 + (0x1_0000 * a) * b2
  {
    Distrib(a, b0, 0x100 * b1 + 0x1_0000 * b2);
    Distrib(a, 0x100 * b1, 0x1_0000 * b2);
  }

  /** The bytes of a limb by itself, after its low part below a went to the byte
      it shares with the limb before, and what is left for the next. */
  method LimbParts(h: nat, a: nat) returns (b0: byte, b1: byte, top: nat)
    requires a > 0
    ensures h == Rem(h, a) + a * b0 + (0x100 * a) * b1 + (0x1_0000 * a) * top
  {
    hide Byte, Rem;
    LimbBytes(h, a);
    b0, b1, top := Byte(h / a), Byte(h / (0x100 * a)), h / (0x1_0000 * a);
  }

  /** A byte shared by the top of one limb and the bottom of the next. */
  method SharedByte(lo: nat, hi: nat, k: nat, p: nat, m: nat) returns (b: byte)
    requires p == Pow2(k) && lo < p && m > 0 && p * m == 0x100
    ensures b == lo + p * Rem(hi, m)
  {
    hide Or, Pow2;
    b := Byte(Or(lo, hi * p));
    Seam(lo, hi, k);
    Assoc(p, m, hi / m);
    Distrib(p, m * (hi / m), hi % m);
    MulLe(p, hi % m, m - 1);
    DistribSub(p, m, 1);
    MulNonNeg(p, hi % m);
    DivModUnique(lo + hi * p, 0x100, hi / m, lo + p * (hi % m));
  }

  /** The low and the high sixteen bytes of fe_tobytes. */
  method PackLow(h0: nat, h1: nat, h2: nat, h3: nat, h4: nat) returns (s: seq<byte>)
    requires h0 < 0x400_0000 && h1 < 0x200_0000 && h2 < 0x400_0000 && h3 < 0x200_0000 && h4 < 0x400_0000
    ensures |s| == 16
    ensures Val(s, 256) == h0 + 0x400_0000 * h1
                         + 0x8_0000_0000_0000 * h2
                         + 0x2000_0000_0000_0000_0000 * h3 + 0x40_0000_0000_0000_0000_0000_0000 * h4
  {
    hide Or, Pow2, Val, Rem, Byte;
    SmallPowers();
    var x0, y0, z0 := LimbParts(h0, 0x100);
    var x1, y1, z1 := LimbParts(h1, 0x40);
    var x2, y2, z2 := LimbParts(h2, 0x20);
    var x3, y3, z3 := LimbParts(h3, 8);
    var x4, y4, z4 := LimbParts(h4, 4);
    var w0 := SharedByte(z0, h1, 2, 4, 64);
    var w1 := SharedByte(z1, h2, 3, 8, 32);
    var w2 := SharedByte(z2, h3, 5, 32, 8);
    var w3 := SharedByte(z3, h4, 6, 64, 4);
    ByteCases(h0);
    ByteCases(z4);
    s := [Byte(h0), x0, y0, w0, x1, y1, w1, x2, y2, w2, x3, y3, w3, x4, y4, Byte(z4)];
    SixteenBytes(s);
  }

  method PackHigh(h5: nat, h6: nat, h7: nat, h8: nat, h9: nat) returns (s: seq<byte>)
    requires h5 < 0x200_0000 && h6 < 0x400_0000 && h7 < 0x200_0000 && h8 < 0x400_0000 && h9 < 0x200_0000
    ensures |s| == 16
    ensures Val(s, 256) == h5 + 0x200_0000 * h6
                         + 0x8_0000_0000_0000 * h7
                         + 0x1000_0000_0000_0000_0000 * h8 + 0x40_0000_0000_0000_0000_0000_0000 * h9
  {
    hide Or, Pow2, Val, Rem, Byte;
    SmallPowers();
    var x0, y0, z0 := LimbParts(h5, 0x100);
    var x1, y1, z1 := LimbParts(h6, 0x80);
    var x2, y2, z2 := LimbParts(h7, 0x20);
    var x3, y3, z3 := LimbParts(h8, 0x10);
    var x4, y4, z4 := LimbParts(h9, 4);
    var w0 := SharedByte(z0, h6, 1, 2, 128);
    var w1 := SharedByte(z1, h7, 3, 8, 32);
    var w2 := SharedByte(z2, h8, 4, 16, 16);
    var w3 := SharedByte(z3, h9, 6, 64, 4);
    ByteCases(h5);
    ByteCases(z4);
    s := [Byte(h5), x0, y0, w0, x1, y1, w1, x2, y2, w2, x3, y3, w3, x4, y4, Byte(z4)];
    SixteenBytes(s);
  }

  /** fe_tobytes */
  method ToBytes(f: Limbs10) returns (s: seq<byte>)
    requires Tight(f)
    ensures |s| == 32 && Val(s, 256) == Value(f) % P
  {
    hide Val, Pow, Tight;
    var h := Freeze(f);
    var lo := PackLow(h.v0, h.v1, h.v2, h.v3, h.v4);
    var hi := PackHigh(h.v5, h.v6, h.v7, h.v8, h.v9);
    s := lo + hi;
    ValConcat(lo, hi, 256);
    Pow16();
  }

  /** `a & (p - 1)` and `a >> k`, p being 2^k. */
  method Cut(a: u32, p: nat) returns (lo: nat, hi: nat)
    requires p > 0
    ensures a == p * hi + lo && lo < p
  {
    DivNonNeg(a, p);
    lo, hi := a % p, a / p;
  }

  /** `lo | (hi << k)` */
  method Paste(lo: nat, hi: nat, k: nat, p: nat) returns (r: nat)
    requires p == Pow2(k) && lo < p
    ensures r == lo + p * hi
  {
    hide Or, Pow2;
    Seam(lo, hi, k);
    r := Or(lo, hi * p);
  }

  /** The first five limbs of fe_frombytes_impl, from the first four words. */
  method UnpackLow(a0: u32, a1: u32, a2: u32, a3: u32) returns (h0: nat, h1: nat, h2: nat, h3: nat, h4: nat)
    ensures h0 < 0x400_0000 && h1 < 0x200_0000 && h2 < 0x400_0000 && h3 < 0x200_0000 && h4 < 0x400_0000
    ensures h0 + W1 * h1 + W2 * h2 + W3 * h3 + W4 * h4
         == a0 + 0x1_0000_0000 * (a1 + 0x1_0000_0000 * (a2 + 0x1_0000_0000 * a3))
  {
    hide Pow2;
    SmallPowers();
    var t0, l1, t1, l2, t2, l3;
    h0, t0 := Cut(a0, 0x400_0000);
    l1, t1 := Cut(a1, 0x8_0000);
    h1 := Paste(t0, l1, 6, 0x40);
    l2, t2 := Cut(a2, 0x2000);
    h2 := Paste(t1, l2, 13, 0x2000);
    l3, h4 := Cut(a3, 0x40);
    h3 := Paste(t2, l3, 19, 0x8_0000);
  }

  /** The last five; the top bit of the last word is ignored. */
  method UnpackHigh(a4: u32, a5: u32, a6: u32, a7: u32)
    returns (h5: nat, h6: nat, h7: nat, h8: nat, h9: nat, ghost top: nat)
    ensures h5 < 0x200_0000 && h6 < 0x400_0000 && h7 < 0x200_0000 && h8 < 0x400_0000 && h9 < 0x200_0000
    ensures h5 + 0x200_0000 * h6 + W2 * h7 + 0x1000_0000_0000_0000_0000 * h8 + W4 * h9
            + 0x8000_0000_0000_0000_0000_0000_0000_0000 * top
         == a4 + 0x1_0000_0000 * (a5 + 0x1_0000_0000 * (a6 + 0x1_0000_0000 * a7))
  {
    hide Pow2;
    SmallPowers();
    var t4, l5, t5, l6, t6, l7, t7, t8;
    h5, t4 := Cut(a4, 0x200_0000);
    l5, t5 := Cut(a5, 0x8_0000);
    h6 := Paste(t4, l5, 7, 0x80);
    l6, t6 := Cut(a6, 0x1000);
    h7 := Paste(t5, l6, 13, 0x2000);
    l7, t7 := Cut(a7, 0x40);
    h8 := Paste(t6, l7, 20, 0x10_0000);
    h9, t8 := Cut(t7, 0x200_0000);
    top := t8;
  }

  /** get_unaligned_le32 */
  function Le32(s: seq<byte>, i: nat): (w: u32)
    requires i + 4 <= |s|
  {
    Word4(s[i], s[i + 1], s[i + 2], s[i + 3])
  }

  /** fe_frombytes: the low 255 bits, every limb in its own bits. */
  method FromBytes(s: seq<byte>) returns (h: Limbs10)
    requires |s| == 32
    ensures Carried(h) && Value(h) == Val(s, 256) % TWO255
  {
    hide Val, Pow, Word4;
    var h0, h1, h2, h3, h4 := UnpackLow(Le32(s, 0), Le32(s, 4), Le32(s, 8), Le32(s, 12));
    var h5, h6, h7, h8, h9, top := UnpackHigh(Le32(s, 16), Le32(s, 20), Le32(s, 24), Le32(s, 28));
    h := Limbs10(h0, h1, h2, h3, h4, h5, h6, h7, h8, h9);
    SixteenBytes(s[..16]);
    SixteenBytes(s[16..]);
    ValSplit(s, 16, 256);
    Pow16();
    CarriedBelow(h);
    DivModUnique(Val(s, 256), TWO255, top, Value(h));
  }

  /** A field element survives its bytes. */
  method RoundTrip(f: Limbs10) returns (g: Limbs10)
    requires Tight(f)
    ensures Tight(g) && Cong(Value(g), Value(f), P)
    ensures Value(g) == Value(f) % P
  {
    hide Val, Cong;
    var s := ToBytes(f);
    g := FromBytes(s);
    DivModUnique(Value(f) % P, TWO255, 0, Value(f) % P);
    CongRemainder(Value(f), P);
  }

  /** Bytes survive a field element exactly when they are a residue of the prime. */
  method BytesRoundTrip(s: seq<byte>) returns (t: seq<byte>)
    requires |s| == 32
    ensures |t| == 32
    ensures t == s <==> Val(s, 256) < P
  {
    hide Val;
    var f := FromBytes(s);
    t := ToBytes(f);
    if Val(s, 256) < P {
      DivModUnique(Val(s, 256), TWO255, 0, Val(s, 256));
      DivModUnique(Val(s, 256), P, 0, Val(s, 256));
      ValUnique(s, t, 256);
    }
  }

  lemma ValueNonNeg(f: Limbs10)
    ensures Value(f) >= 0
  {
  }

  /** t is z to the power e. */
  ghost predicate Is(t: Limbs10, z: nat, e: nat)
  {
    Tight(t) && Cong(Value(t), Pow(z, e), P)
  }

  lemma TightIsLoose(f: Limbs10)
    requires Tight(f)
    ensures Loose(f)
  {
  }

  lemma PowerProduct(v: int, a: int, b: int, z: nat, x: nat, y: nat)
    requires Cong(v, a * b, P) && Cong(a, Pow(z, x), P) && Cong(b, Pow(z, y), P)
    ensures Cong(v, Pow(z, x + y), P)
  {
    hide Cong, Pow;
    CongMul(a, Pow(z, x), b, Pow(z, y), P);
    PowAdd(z, x, y);
    CongTrans(v, a * b, Pow(z, x) * Pow(z, y), P);
  }

  method MulPower(f: Limbs10, g: Limbs10, ghost z: nat, ghost x: nat, ghost y: nat) returns (h: Limbs10)
    requires Is(f, z, x) && Is(g, z, y)
    ensures Is(h, z, x + y)
  {
    hide Value, Cong, Pow, Tight, Loose;
    TightIsLoose(f);
    TightIsLoose(g);
    h := Mul(f, g);
    PowerProduct(Value(h), Value(f), Value(g), z, x, y);
  }

  /** fe_sq_tt, then n - 1 times more in place. */
  method SquareTimes(f: Limbs10, n: nat, ghost z: nat, ghost x: nat) returns (h: Limbs10)
    requires n >= 1 && Is(f, z, x)
    ensures Is(h, z, Pow2(n) * x)
  {
    hide Value, Cong, Pow, Pow2, Tight, Loose;
    h := SquarePower(f, z, x);
    SmallPowers();
    var i := 1;
    while i < n
      invariant 1 <= i <= n && Is(h, z, Pow2(i) * x)
    {
      h := SquarePower(h, z, Pow2(i) * x);
      NextPower(i, x);
      i := i + 1;
    }
  }

  lemma NextPower(i: nat, x: nat)
    ensures Pow2(i + 1) * x == 2 * (Pow2(i) * x)
  {
    Assoc(2, Pow2(i), x);
  }

  method SquarePower(f: Limbs10, ghost z: nat, ghost x: nat) returns (h: Limbs10)
    requires Is(f, z, x)
    ensures Is(h, z, 2 * x)
  {
    hide Value, Cong, Pow, Tight, Loose;
    TightIsLoose(f);
    h := Sqr(f);
    PowerProduct(Value(h), Value(f), Value(f), z, x, x);
  }

  lemma ChainPowers()
    ensures Pow2(5) == 0x20 && Pow2(10) == 0x400 && Pow2(20) == 0x10_0000 && Pow2(50) == 0x4_0000_0000_0000
    ensures Pow2(100) == 0x10_0000_0000_0000_0000_0000_0000
  {
    SmallPowers();
    Pow2Add(5, 5);
    Pow2Add(20, 10);
    Pow2Add(30, 20);
    Pow2Add(50, 50);
  }

  /** fe_loose_invert: the power 2^255 - 21, two less than the prime. */
  method LooseInvert(z: Limbs10) returns (out: Limbs10)
    requires Loose(z)
    ensures Value(z) >= 0 && Is(out, Value(z), P - 2)
  {
    hide Value, Cong, Pow, Pow2, Tight, Loose, Is;
    ValueNonNeg(z);
    ghost var v := Value(z);
    SmallPowers();
    ChainPowers();
    var t0, t1, t2, t3;
    t0 := SquareLoose(z);
    t1 := SquareTimes(t0, 2, v, 2);
    t1 := MulLoose(z, t1, 8);
    t0 := MulPower(t0, t1, v, 2, 9);
    t2 := SquareTimes(t0, 1, v, 11);
    t1 := MulPower(t1, t2, v, 9, 22);
    t2 := SquareTimes(t1, 5, v, 0x1F);
    t1 := MulPower(t2, t1, v, 0x3E0, 0x1F);
    t2 := SquareTimes(t1, 10, v, 0x3FF);
    t2 := MulPower(t2, t1, v, 0x400 * 0x3FF, 0x3FF);
    t3 := SquareTimes(t2, 20, v, 0xF_FFFF);
    t2 := MulPower(t3, t2, v, 0x10_0000 * 0xF_FFFF, 0xF_FFFF);
    t2 := SquareTimes(t2, 10, v, 0xFF_FFFF_FFFF);
    t1 := MulPower(t2, t1, v, 0x400 * 0xFF_FFFF_FFFF, 0x3FF);
    t2 := SquareTimes(t1, 50, v, 0x3_FFFF_FFFF_FFFF);
    t2 := MulPower(t2, t1, v, 0x4_0000_0000_0000 * 0x3_FFFF_FFFF_FFFF, 0x3_FFFF_FFFF_FFFF);
    t3 := SquareTimes(t2, 100, v, 0xF_FFFF_FFFF_FFFF_FFFF_FFFF_FFFF);
    t2 := MulPower(t3, t2, v, 0x10_0000_0000_0000_0000_0000_0000 * 0xF_FFFF_FFFF_FFFF_FFFF_FFFF_FFFF,
                   0xF_FFFF_FFFF_FFFF_FFFF_FFFF_FFFF);
    t2 := SquareTimes(t2, 50, v, 0xFF_FFFF_FFFF_FFFF_FFFF_FFFF_FFFF_FFFF_FFFF_FFFF_FFFF_FFFF_FFFF);
    t1 := MulPower(t2, t1, v,
                   0x4_0000_0000_0000 * 0xFF_FFFF_FFFF_FFFF_FFFF_FFFF_FFFF_FFFF_FFFF_FFFF_FFFF_FFFF_FFFF,
                   0x3_FFFF_FFFF_FFFF);
    t1 := SquareTimes(t1, 5, v, 0x3FF_FFFF_FFFF_FFFF_FFFF_FFFF_FFFF_FFFF_FFFF_FFFF_FFFF_FFFF_FFFF_FFFF_FFFF_FFFF);
    out := MulPower(t1, t0, v,
                    0x20 * 0x3FF_FFFF_FFFF_FFFF_FFFF_FFFF_FFFF_FFFF_FFFF_FFFF_FFFF_FFFF_FFFF_FFFF_FFFF_FFFF, 11);
  }

  /** fe_sq_tl */
  method SquareLoose(z: Limbs10) returns (h: Limbs10)
    requires Loose(z) && Value(z) >= 0
    ensures Is(h, Value(z), 2)
  {
    hide Value, Cong, Tight, Loose;
    h := Sqr(z);
    assert Pow(Value(z), 1) == Value(z);
    CongRefl(Value(z), P);
    PowerProduct(Value(h), Value(z), Value(z), Value(z), 1, 1);
  }

  /** fe_mul_tlt */
  method MulLoose(z: Limbs10, t: Limbs10, ghost x: nat) returns (h: Limbs10)
    requires Loose(z) && Value(z) >= 0 && Is(t, Value(z), x)
    ensures Is(h, Value(z), x + 1)
  {
    hide Value, Cong, Tight, Loose;
    TightIsLoose(t);
    h := Mul(z, t);
    assert Pow(Value(z), 1) == Value(z);
    CongRefl(Value(z), P);
    PowerProduct(Value(h), Value(z), Value(t), Value(z), 1, x);
  }
}
