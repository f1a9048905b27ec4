/** crypto/poly1305.c: arithmetic modulo 2^130 - 5 on five 26-bit limbs.  Every
    `unsigned long` is a u32 and every `unsigned long long` a u64, so the types
    state that nothing overflows on either width of unsigned long. */
module Poly1305Field {
  import opened Arith
  import opened Bits
  import opened Limbs
  import opened NumberTheory
  import opened Machine

  const X1: int := 0x400_0000
  const X2: int := 0x10_0000_0000_0000
  const X3: int := 0x4000_0000_0000_0000_0000
  const X4: int := 0x100_0000_0000_0000_0000_0000_0000

  /** The prime 2^130 - 5. */
  const P: int := 0x3_FFFF_FFFF_FFFF_FFFF_FFFF_FFFF_FFFF_FFFB

  /** The number that five limbs stand for. */
  function Limbs5(h0: int, h1: int, h2: int, h3: int, h4: int): (v: int)
  {
    h0 + X1 * h1 + X2 * h2 + X3 * h3 + X4 * h4
  }

  /** Between blocks only the second limb may exceed 26 bits, by less than 64. */
  ghost predicate Reduced(h0: int, h1: int, h2: int, h3: int, h4: int)
  {
    0 <= h0 < X1 && 0 <= h1 < X1 + 64 && 0 <= h2 < X1 && 0 <= h3 < X1 && 0 <= h4 < X1
  }

  /** The limbs of a clamped r. */
  ghost predicate Clamped(r0: int, r1: int, r2: int, r3: int, r4: int)
  {
    && 0 <= r0 <= 0x3FF_FFFF && 0 <= r1 <= 0x3FF_FF03 && 0 <= r2 <= 0x3FF_C0FF
    && 0 <= r3 <= 0x3F0_3FFF && 0 <= r4 <= 0xF_FFFF
  }

  lemma RowExpand(h: int, r0: int, r1: int, r2: int, r3: int, r4: int)
    ensures h * Limbs5(r0, r1, r2, r3, r4)
         == h * r0 + X1 * (h * r1) + X2 * (h * r2) + X3 * (h * r3) + X4 * (h * r4)
  {
    Distrib(h, r0 + X1 * r1 + X2 * r2 + X3 * r3, X4 * r4);
    Distrib(h, r0 + X1 * r1 + X2 * r2, X3 * r3);
    Distrib(h, r0 + X1 * r1, X2 * r2);
    Distrib(h, r0, X1 * r1);
    Assoc(h, X1, r1);
    Assoc(h, X2, r2);
    Assoc(h, X3, r3);
    Assoc(h, X4, r4);
  }

  lemma ColumnExpand(h0: int, h1: int, h2: int, h3: int, h4: int, r: int)
    ensures Limbs5(h0, h1, h2, h3, h4) * r
         == h0 * r + X1 * (h1 * r) + X2 * (h2 * r) + X3 * (h3 * r) + X4 * (h4 * r)
  {
    RowExpand(r, h0, h1, h2, h3, h4);
  }

  /** The folded schoolbook product: columns 5 to 8 come back times five. */
  lemma FoldedProduct(h0: int, h1: int, h2: int, h3: int, h4: int, r0: int, r1: int, r2: int, r3: int, r4: int)
    ensures Cong(Limbs5(h0 * r0 + h1 * (r4 * 5) + h2 * (r3 * 5) + h3 * (r2 * 5) + h4 * (r1 * 5),
                        h0 * r1 + h1 * r0 + h2 * (r4 * 5) + h3 * (r3 * 5) + h4 * (r2 * 5),
                        h0 * r2 + h1 * r1 + h2 * r0 + h3 * (r4 * 5) + h4 * (r3 * 5),
                        h0 * r3 + h1 * r2 + h2 * r1 + h3 * r0 + h4 * (r4 * 5),
                        h0 * r4 + h1 * r3 + h2 * r2 + h3 * r1 + h4 * r0),
                 Limbs5(h0, h1, h2, h3, h4) * Limbs5(r0, r1, r2, r3, r4), P)
  {
    var r := Limbs5(r0, r1, r2, r3, r4);
    ColumnExpand(h0, h1, h2, h3, h4, r);
    RowExpand(h0, r0, r1, r2, r3, r4);
    RowExpand(h1, r0, r1, r2, r3, r4);
    RowExpand(h2, r0, r1, r2, r3, r4);
    RowExpand(h3, r0, r1, r2, r3, r4);
    RowExpand(h4, r0, r1, r2, r3, r4);
    Fives(h1, h2, h3, h4, r1, r2, r3, r4);
    Fold(h0 * r0, h0 * r1, h0 * r2, h0 * r3, h0 * r4, h1 * r0, h1 * r1, h1 * r2, h1 * r3, h1 * r4,
         h2 * r0, h2 * r1, h2 * r2, h2 * r3, h2 * r4, h3 * r0, h3 * r1, h3 * r2, h3 * r3, h3 * r4,
         h4 * r0, h4 * r1, h4 * r2, h4 * r3, h4 * r4);
  }

  lemma Fives(h1: int, h2: int, h3: int, h4: int, r1: int, r2: int, r3: int, r4: int)
    ensures h1 * (r4 * 5) == 5 * (h1 * r4) && h2 * (r3 * 5) == 5 * (h2 * r3) && h2 * (r4 * 5) == 5 * (h2 * r4)
    ensures h3 * (r2 * 5) == 5 * (h3 * r2) && h3 * (r3 * 5) == 5 * (h3 * r3) && h3 * (r4 * 5) == 5 * (h3 * r4)
    ensures h4 * (r1 * 5) == 5 * (h4 * r1) && h4 * (r2 * 5) == 5 * (h4 * r2)
    ensures h4 * (r3 * 5) == 5 * (h4 * r3) && h4 * (r4 * 5) == 5 * (h4 * r4)
  {
  }

  /** The linear part: with every product named, folding subtracts a multiple of P. */
  lemma Fold(p00: int, p01: int, p02: int, p03: int, p04: int, p10: int, p11: int, p12: int, p13: int, p14: int,
             p20: int, p21: int, p22: int, p23: int, p24: int, p30: int, p31: int, p32: int, p33: int, p34: int,
             p40: int, p41: int, p42: int, p43: int, p44: int)
    ensures Cong(Limbs5(p00 + 5 * p14 + 5 * p23 + 5 * p32 + 5 * p41,
                        p01 + p10 + 5 * p24 + 5 * p33 + 5 * p42,
                        p02 + p11 + p20 + 5 * p34 + 5 * p43,
                        p03 + p12 + p21 + p30 + 5 * p44,
                        p04 + p13 + p22 + p31 + p40),
                 Limbs5(p00, p01, p02, p03, p04) + X1 * Limbs5(p10, p11, p12, p13, p14)
                 + X2 * Limbs5(p20, p21, p22, p23, p24) + X3 * Limbs5(p30, p31, p32, p33, p34)
                 + X4 * Limbs5(p40, p41, p42, p43, p44), P)
  {
    var a := Limbs5(p00 + 5 * p14 + 5 * p23 + 5 * p32 + 5 * p41,
                    p01 + p10 + 5 * p24 + 5 * p33 + 5 * p42,
                    p02 + p11 + p20 + 5 * p34 + 5 * p43,
                    p03 + p12 + p21 + p30 + 5 * p44,
                    p04 + p13 + p22 + p31 + p40);
    var b := Limbs5(p00, p01, p02, p03, p04) + X1 * Limbs5(p10, p11, p12, p13, p14)
             + X2 * Limbs5(p20, p21, p22, p23, p24) + X3 * Limbs5(p30, p31, p32, p33, p34)
             + X4 * Limbs5(p40, p41, p42, p43, p44);
    var k := (p14 + p23 + p32 + p41) + X1 * (p24 + p33 + p42) + X2 * (p34 + p43) + X3 * p44;
    assert a - b == P * (-k);
    DividesIntro(P, a - b, -k);
  }

  lemma MulRange(x: int, y: int, a: int, b: int)
    requires 0 <= x <= a && 0 <= y <= b
    ensures 0 <= x * y <= a * b
  {
    MulNonNeg(x, y);
    MulLe(x, y, b);
    MulLe(b, x, a);
  }

  /** The limbs after a block has been added. */
  ghost predicate Loaded(h0: int, h1: int, h2: int, h3: int, h4: int)
  {
    && 0 <= h0 <= 0x7FF_FFFF && 0 <= h1 <= 0x800_003F && 0 <= h2 <= 0x7FF_FFFF && 0 <= h3 <= 0x7FF_FFFF
    && 0 <= h4 <= 0x5FF_FFFF
  }

  /** Five products of a limb and a multiplier below q. */
  lemma Dot5(a0: int, a1: int, a2: int, a3: int, a4: int, b0: int, b1: int, b2: int, b3: int, b4: int, q: int)
    requires Loaded(a0, a1, a2, a3, a4)
    requires 0 <= b0 <= q && 0 <= b1 <= q && 0 <= b2 <= q && 0 <= b3 <= q && 0 <= b4 <= q
    ensures 0 <= a0 * b0 + a1 * b1 + a2 * b2 + a3 * b3 + a4 * b4 <= 5 * 0x800_003F * q
  {
    MulRange(a0, b0, 0x800_003F, q);
    MulRange(a1, b1, 0x800_003F, q);
    MulRange(a2, b2, 0x800_003F, q);
    MulRange(a3, b3, 0x800_003F, q);
    MulRange(a4, b4, 0x800_003F, q);
  }

  /** `h *= r`: the five columns. */
  method Multiply(h0: u32, h1: u32, h2: u32, h3: u32, h4: u32, r0: u32, r1: u32, r2: u32, r3: u32, r4: u32)
    returns (d0: u64, d1: u64, d2: u64, d3: u64, d4: u64)
    requires Loaded(h0, h1, h2, h3, h4) && Clamped(r0, r1, r2, r3, r4)
    ensures d0 < 0x322_0000_0000_0000 && d1 < 0x322_0000_0000_0000 && d2 < 0x322_0000_0000_0000
    ensures d3 < 0x322_0000_0000_0000 && d4 < 0xA1_0000_0000_0000
    ensures Cong(Limbs5(d0, d1, d2, d3, d4), Limbs5(h0, h1, h2, h3, h4) * Limbs5(r0, r1, r2, r3, r4), P)
  {
    hide Cong, Limbs5;
    var s1: u32, s2: u32, s3: u32, s4: u32 := r1 as int * 5, r2 as int * 5, r3 as int * 5, r4 as int * 5;
    Dot5(h0, h1, h2, h3, h4, r0, s4, s3, s2, s1, 0x13FF_FFFB);
    Dot5(h0, h1, h2, h3, h4, r1, r0, s4, s3, s2, 0x13FF_FFFB);
    Dot5(h0, h1, h2, h3, h4, r2, r1, r0, s4, s3, 0x13FF_FFFB);
    Dot5(h0, h1, h2, h3, h4, r3, r2, r1, r0, s4, 0x13FF_FFFB);
    Dot5(h0, h1, h2, h3, h4, r4, r3, r2, r1, r0, 0x3FF_FFFF);
    FoldedProduct(h0, h1, h2, h3, h4, r0, r1, r2, r3, r4);
    d0 := h0 as int * r0 as int + h1 as int * s4 as int + h2 as int * s3 as int
          + h3 as int * s2 as int + h4 as int * s1 as int;
    d1 := h0 as int * r1 as int + h1 as int * r0 as int + h2 as int * s4 as int
          + h3 as int * s3 as int + h4 as int * s2 as int;
    d2 := h0 as int * r2 as int + h1 as int * r1 as int + h2 as int * r0 as int
          + h3 as int * s4 as int + h4 as int * s3 as int;
    d3 := h0 as int * r3 as int + h1 as int * r2 as int + h2 as int * r1 as int
          + h3 as int * r0 as int + h4 as int * s4 as int;
    d4 := h0 as int * r4 as int + h1 as int * r3 as int + h2 as int * r2 as int
          + h3 as int * r1 as int + h4 as int * r0 as int;
  }

  /** `c = (unsigned long)(d >> 26); h = (unsigned long)d & 0x3ffffff` */
  method SplitLimb(d: u64) returns (c: u32, h: u32)
    requires d < 0x400_0000_0000_0000
    ensures d == X1 * c + h && h < X1
  {
    c := d / X1;
    h := d % X1;
  }

  /** `(partial) h %= p`: carry the columns into limbs, the last carry times five. */
  method CarryChain(e0: u64, e1: u64, e2: u64, e3: u64, e4: u64)
    returns (h0: u32, h1: u32, h2: u32, h3: u32, h4: u32)
    requires e0 < 0x322_0000_0000_0000 && e1 < 0x322_0000_0000_0000 && e2 < 0x322_0000_0000_0000
    requires e3 < 0x322_0000_0000_0000 && e4 < 0xA1_0000_0000_0000
    ensures Reduced(h0, h1, h2, h3, h4)
    ensures Cong(Limbs5(h0, h1, h2, h3, h4), Limbs5(e0, e1, e2, e3, e4), P)
  {
    var c: u32, d1: u64, d2: u64, d3: u64, d4: u64;
    c, h0 := SplitLimb(e0);
    d1 := e1 as int + c as int;
    c, h1 := SplitLimb(d1);
    d2 := e2 as int + c as int;
    c, h2 := SplitLimb(d2);
    d3 := e3 as int + c as int;
    c, h3 := SplitLimb(d3);
    d4 := e4 as int + c as int;
    c, h4 := SplitLimb(d4);
    ghost var top: int := c;
    h0 := h0 as int + c as int * 5;
    c, h0 := h0 / X1, h0 % X1;
    h1 := h1 as int + c as int;
    assert Limbs5(h0, h1, h2, h3, h4) - Limbs5(e0, e1, e2, e3, e4) == P * (-top);
    DividesIntro(P, Limbs5(h0, h1, h2, h3, h4) - Limbs5(e0, e1, e2, e3, e4), -top);
  }

  /** U8TO32 */
  function U8To32(b0: byte, b1: byte, b2: byte, b3: byte): (r: u32)
    ensures r == Word4(b0, b1, b2, b3)
  {
    OrBytes(b0, b1, b2, b3);
    Or(Or(Or(b0, b1 as int * 0x100), b2 as int * 0x1_0000), b3 as int * 0x100_0000)
  }

  lemma OrBytes(b0: byte, b1: byte, b2: byte, b3: byte)
    ensures Or(Or(Or(b0, b1 as int * 0x100), b2 as int * 0x1_0000), b3 as int * 0x100_0000)
         == Word4(b0, b1, b2, b3)
  {
    hide Or, Pow2;
    Pow2Literals();
    Pow2Add(8, 16);
    var x0: nat, x1: nat, x2: nat, x3: nat := b0, b1, b2, b3;
    assert x1 * 0x100 == x1 * Pow2(8);
    OrDisjoint(x1 * 0x100, x0, 8);
    assert x2 * 0x1_0000 == x2 * Pow2(16);
    OrDisjoint(x2 * 0x1_0000, x0 + 0x100 * x1, 16);
    assert x3 * 0x100_0000 == x3 * Pow2(24);
    OrDisjoint(x3 * 0x100_0000, x0 + 0x100 * x1 + 0x1_0000 * x2, 24);
  }

  /** The limbs of sixteen bytes, before masking r or adding 2^128. */
  function Limb0(m: seq<byte>): (l: u32) requires |m| == 16 { U8To32(m[0], m[1], m[2], m[3]) % X1 }
  function Limb1(m: seq<byte>): (l: u32) requires |m| == 16 { (U8To32(m[3], m[4], m[5], m[6]) / 4) % X1 }
  function Limb2(m: seq<byte>): (l: u32) requires |m| == 16 { (U8To32(m[6], m[7], m[8], m[9]) / 16) % X1 }
  function Limb3(m: seq<byte>): (l: u32) requires |m| == 16 { (U8To32(m[9], m[10], m[11], m[12]) / 64) % X1 }
  function Limb4(m: seq<byte>): (l: u32) requires |m| == 16 { U8To32(m[12], m[13], m[14], m[15]) / 256 }

  /** The five limbs hold the little-endian value of the sixteen bytes. */
  lemma BlockLimbs(m: seq<byte>)
    requires |m| == 16
    ensures Limbs5(Limb0(m), Limb1(m), Limb2(m), Limb3(m), Limb4(m)) == Val(m, 256)
    ensures Limb4(m) < 0x100_0000
  {
    hide Val;
    SixteenBytes(m);
    Split0(m[0], m[1], m[2], m[3]);
    Split1(m[3], m[4], m[5], m[6]);
    Split2(m[6], m[7], m[8], m[9]);
    Split3(m[9], m[10], m[11], m[12]);
    Split4(m[12], m[13], m[14], m[15]);
    assert m[3] == 4 * (m[3] / 4) + m[3] % 4;
    assert m[6] == 16 * (m[6] / 16) + m[6] % 16;
    assert m[9] == 64 * (m[9] / 64) + m[9] % 64;
  }

  /** Which bits of a four-byte word each limb takes. */
  lemma Split0(b0: int, b1: int, b2: int, b3: int)
    requires 0 <= b0 < 256 && 0 <= b1 < 256 && 0 <= b2 < 256 && 0 <= b3 < 256
    ensures Word4(b0, b1, b2, b3) % X1 == b0 + 0x100 * b1 + 0x1_0000 * b2 + 0x100_0000 * (b3 % 4)
  {
    DivModUnique(Word4(b0, b1, b2, b3), X1, b3 / 4, b0 + 0x100 * b1 + 0x1_0000 * b2 + 0x100_0000 * (b3 % 4));
  }

  lemma Split1(b0: int, b1: int, b2: int, b3: int)
    requires 0 <= b0 < 256 && 0 <= b1 < 256 && 0 <= b2 < 256 && 0 <= b3 < 256
    ensures (Word4(b0, b1, b2, b3) / 4) % X1 == b0 / 4 + 0x40 * b1 + 0x4000 * b2 + 0x40_0000 * (b3 % 16)
  {
    var w := b0 / 4 + 0x40 * b1 + 0x4000 * b2 + 0x40_0000 * b3;
    DivModUnique(Word4(b0, b1, b2, b3), 4, w, b0 % 4);
    DivModUnique(w, X1, b3 / 16, b0 / 4 + 0x40 * b1 + 0x4000 * b2 + 0x40_0000 * (b3 % 16));
  }

  lemma Split2(b0: int, b1: int, b2: int, b3: int)
    requires 0 <= b0 < 256 && 0 <= b1 < 256 && 0 <= b2 < 256 && 0 <= b3 < 256
    ensures (Word4(b0, b1, b2, b3) / 16) % X1 == b0 / 16 + 0x10 * b1 + 0x1000 * b2 + 0x10_0000 * (b3 % 64)
  {
    var w := b0 / 16 + 0x10 * b1 + 0x1000 * b2 + 0x10_0000 * b3;
    DivModUnique(Word4(b0, b1, b2, b3), 16, w, b0 % 16);
    DivModUnique(w, X1, b3 / 64, b0 / 16 + 0x10 * b1 + 0x1000 * b2 + 0x10_0000 * (b3 % 64));
  }

  lemma Split3(b0: int, b1: int, b2: int, b3: int)
    requires 0 <= b0 < 256 && 0 <= b1 < 256 && 0 <= b2 < 256 && 0 <= b3 < 256
    ensures (Word4(b0, b1, b2, b3) / 64) % X1 == b0 / 64 + 0x4 * b1 + 0x400 * b2 + 0x4_0000 * b3
  {
    var w := b0 / 64 + 0x4 * b1 + 0x400 * b2 + 0x4_0000 * b3;
    DivModUnique(Word4(b0, b1, b2, b3), 64, w, b0 % 64);
    DivModUnique(w, X1, 0, w);
  }

  lemma Split4(b0: int, b1: int, b2: int, b3: int)
    requires 0 <= b0 < 256
    ensures Word4(b0, b1, b2, b3) / 256 == b1 + 0x100 * b2 + 0x1_0000 * b3
  {
    DivModUnique(Word4(b0, b1, b2, b3), 256, b1 + 0x100 * b2 + 0x1_0000 * b3, b0);
  }
}
