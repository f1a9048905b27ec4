/** crypto/curve25519.c: multiplication and squaring modulo 2^255 - 19 on ten
    limbs of alternately 26 and 25 bits.  Every `uint32_t` is a u32 and every
    `uint64_t` a u64, so the types state that nothing overflows. */
module Curve25519Mul {
  import opened Arith
  import opened Machine
  import opened NumberTheory

  const W1: int := 0x400_0000
  const W2: int := 0x8_0000_0000_0000
  const W3: int := 0x2000_0000_0000_0000_0000
  const W4: int := 0x40_0000_0000_0000_0000_0000_0000
  const W5: int := 0x1_0000_0000_0000_0000_0000_0000_0000_0000
  const W6: int := 0x200_0000_0000_0000_0000_0000_0000_0000_0000_0000
  const W7: int := 0x8_0000_0000_0000_0000_0000_0000_0000_0000_0000_0000_0000
  const W8: int := 0x1000_0000_0000_0000_0000_0000_0000_0000_0000_0000_0000_0000_0000
  const W9: int := 0x40_0000_0000_0000_0000_0000_0000_0000_0000_0000_0000_0000_0000_0000_0000

  const TWO255: int := 0x8000_0000_0000_0000_0000_0000_0000_0000_0000_0000_0000_0000_0000_0000_0000_0000

  /** The prime 2^255 - 19. */
  const P: int := TWO255 - 19

  datatype Limbs10 = Limbs10(v0: nat, v1: nat, v2: nat, v3: nat, v4: nat,
                             v5: nat, v6: nat, v7: nat, v8: nat, v9: nat)

  /** The number that ten limbs stand for. */
  function Value(f: Limbs10): (v: int)
  {
    f.v0 + W1 * f.v1 + W2 * f.v2 + W3 * f.v3 + W4 * f.v4
    + W5 * f.v5 + W6 * f.v6 + W7 * f.v7 + W8 * f.v8 + W9 * f.v9
  }

  ghost predicate Bounded(f: Limbs10, even: nat, odd: nat)
  {
    && f.v0 <= even && f.v1 <= odd && f.v2 <= even && f.v3 <= odd && f.v4 <= even
    && f.v5 <= odd && f.v6 <= even && f.v7 <= odd && f.v8 <= even && f.v9 <= odd
  }

  /** fe: 1.125 * 2^26 and 1.125 * 2^25. */
  ghost predicate Tight(f: Limbs10) { Bounded(f, 0x480_0000, 0x240_0000) }

  /** fe_loose: 3.375 * 2^26 and 3.375 * 2^25. */
  ghost predicate Loose(f: Limbs10) { Bounded(f, 0xD80_0000, 0x6C0_0000) }

  /** `(uint64_t)a * b` */
  function Mul64(a: nat, b: nat): (r: nat)
  {
    a * b
  }

  lemma Mul64Bound(a: nat, b: nat, x: nat, y: nat)
    requires a <= x && b <= y
    ensures Mul64(a, b) <= x * y
  {
    MulLe(b, a, x);
    MulLe(x, b, y);
  }

  /** All limbs of g times one limb x. */
  function Scale(g: Limbs10, x: nat): (r: Limbs10)
  {
    Limbs10(Mul64(g.v0, x), Mul64(g.v1, x), Mul64(g.v2, x), Mul64(g.v3, x), Mul64(g.v4, x),
            Mul64(g.v5, x), Mul64(g.v6, x), Mul64(g.v7, x), Mul64(g.v8, x), Mul64(g.v9, x))
  }

  lemma ScaleValue(g: Limbs10, x: nat)
    ensures Value(Scale(g, x)) == Value(g) * x
  {
  }

  /** A product, limb of f by limb of f. */
  lemma Rows(f: Limbs10, v: int)
    ensures Value(f) * v == f.v0 * v + W1 * (f.v1 * v) + W2 * (f.v2 * v) + W3 * (f.v3 * v) + W4 * (f.v4 * v)
                          + W5 * (f.v5 * v) + W6 * (f.v6 * v) + W7 * (f.v7 * v) + W8 * (f.v8 * v) + W9 * (f.v9 * v)
  {
  }

  /** Columns of equal weight, from the rows of the even limbs: below 2^255, */
  function LowEven(r0: Limbs10, r2: Limbs10, r4: Limbs10, r6: Limbs10, r8: Limbs10): (c: Limbs10)
  {
    Limbs10(r0.v0,
            r0.v1,
            r0.v2 + r2.v0,
            r0.v3 + r2.v1,
            r0.v4 + r2.v2 + r4.v0,
            r0.v5 + r2.v3 + r4.v1,
            r0.v6 + r2.v4 + r4.v2 + r6.v0,
            r0.v7 + r2.v5 + r4.v3 + r6.v1,
            r0.v8 + r2.v6 + r4.v4 + r6.v2 + r8.v0,
            r0.v9 + r2.v7 + r4.v5 + r6.v3 + r8.v1)
  }

  /** and from 2^255 up. */
  function HighEven(r0: Limbs10, r2: Limbs10, r4: Limbs10, r6: Limbs10, r8: Limbs10): (c: Limbs10)
  {
    Limbs10(r2.v8 + r4.v6 + r6.v4 + r8.v2,
            r2.v9 + r4.v7 + r6.v5 + r8.v3,
            r4.v8 + r6.v6 + r8.v4,
            r4.v9 + r6.v7 + r8.v5,
            r6.v8 + r8.v6,
            r6.v9 + r8.v7,
            r8.v8,
            r8.v9,
            0,
            0)
  }

  /** The same from the odd limbs; two odd limbs meet at half the weight of their column. */
  function LowOdd(r1: Limbs10, r3: Limbs10, r5: Limbs10, r7: Limbs10, r9: Limbs10): (c: Limbs10)
  {
    Limbs10(0,
            r1.v0,
            2 * r1.v1,
            r1.v2 + r3.v0,
            2 * r1.v3 + 2 * r3.v1,
            r1.v4 + r3.v2 + r5.v0,
            2 * r1.v5 + 2 * r3.v3 + 2 * r5.v1,
            r1.v6 + r3.v4 + r5.v2 + r7.v0,
            2 * r1.v7 + 2 * r3.v5 + 2 * r5.v3 + 2 * r7.v1,
            r1.v8 + r3.v6 + r5.v4 + r7.v2 + r9.v0)
  }

  /** The same from 2^255 up. */
  function HighOdd(r1: Limbs10, r3: Limbs10, r5: Limbs10, r7: Limbs10, r9: Limbs10): (c: Limbs10)
  {
    Limbs10(2 * r1.v9 + 2 * r3.v7 + 2 * r5.v5 + 2 * r7.v3 + 2 * r9.v1,
            r3.v8 + r5.v6 + r7.v4 + r9.v2,
            2 * r3.v9 + 2 * r5.v7 + 2 * r7.v5 + 2 * r9.v3,
            r5.v8 + r7.v6 + r9.v4,
            2 * r5.v9 + 2 * r7.v7 + 2 * r9.v5,
            r7.v8 + r9.v6,
            2 * r7.v9 + 2 * r9.v7,
            r9.v8,
            2 * r9.v9,
            0)
  }

  lemma ColumnsEven(r0: Limbs10, r2: Limbs10, r4: Limbs10, r6: Limbs10, r8: Limbs10)
    ensures Value(r0) + W2 * Value(r2) + W4 * Value(r4) + W6 * Value(r6) + W8 * Value(r8)
         == Value(LowEven(r0, r2, r4, r6, r8)) + TWO255 * Value(HighEven(r0, r2, r4, r6, r8))
  {
  }

  lemma ColumnsOdd(r1: Limbs10, r3: Limbs10, r5: Limbs10, r7: Limbs10, r9: Limbs10)
    ensures W1 * Value(r1) + W3 * Value(r3) + W5 * Value(r5) + W7 * Value(r7) + W9 * Value(r9)
         == Value(LowOdd(r1, r3, r5, r7, r9)) + TWO255 * Value(HighOdd(r1, r3, r5, r7, r9))
  {
  }

  function Plus(f: Limbs10, g: Limbs10): (h: Limbs10)
    ensures Value(h) == Value(f) + Value(g)
  {
    Limbs10(f.v0 + g.v0, f.v1 + g.v1, f.v2 + g.v2, f.v3 + g.v3, f.v4 + g.v4,
            f.v5 + g.v5, f.v6 + g.v6, f.v7 + g.v7, f.v8 + g.v8, f.v9 + g.v9)
  }

  ghost function ProductLow(f: Limbs10, g: Limbs10): (c: Limbs10)
  {
    Plus(LowEven(Scale(g, f.v0), Scale(g, f.v2), Scale(g, f.v4), Scale(g, f.v6), Scale(g, f.v8)),
         LowOdd(Scale(g, f.v1), Scale(g, f.v3), Scale(g, f.v5), Scale(g, f.v7), Scale(g, f.v9)))
  }

  ghost function ProductHigh(f: Limbs10, g: Limbs10): (c: Limbs10)
  {
    Plus(HighEven(Scale(g, f.v0), Scale(g, f.v2), Scale(g, f.v4), Scale(g, f.v6), Scale(g, f.v8)),
         HighOdd(Scale(g, f.v1), Scale(g, f.v3), Scale(g, f.v5), Scale(g, f.v7), Scale(g, f.v9)))
  }

  /** The columns add up to the product. */
  lemma ProductValue(f: Limbs10, g: Limbs10)
    ensures Value(ProductLow(f, g)) + TWO255 * Value(ProductHigh(f, g)) == Value(f) * Value(g)
  {
    hide Value, Scale, LowEven, HighEven, LowOdd, HighOdd, Plus;
    Rows(f, Value(g));
    ScaleValue(g, f.v0);
    ScaleValue(g, f.v1);
    ScaleValue(g, f.v2);
    ScaleValue(g, f.v3);
    ScaleValue(g, f.v4);
    ScaleValue(g, f.v5);
    ScaleValue(g, f.v6);
    ScaleValue(g, f.v7);
    ScaleValue(g, f.v8);
    ScaleValue(g, f.v9);
    ColumnsEven(Scale(g, f.v0), Scale(g, f.v2), Scale(g, f.v4), Scale(g, f.v6), Scale(g, f.v8));
    ColumnsOdd(Scale(g, f.v1), Scale(g, f.v3), Scale(g, f.v5), Scale(g, f.v7), Scale(g, f.v9));
  }

  lemma ScaleBound(g: Limbs10, x: nat, b: nat)
    requires Loose(g) && x <= b
    ensures Bounded(Scale(g, x), 0xD80_0000 * b, 0x6C0_0000 * b)
  {
    hide Mul64;
    Mul64Bound(g.v0, x, 0xD80_0000, b);
    Mul64Bound(g.v1, x, 0x6C0_0000, b);
    Mul64Bound(g.v2, x, 0xD80_0000, b);
    Mul64Bound(g.v3, x, 0x6C0_0000, b);
    Mul64Bound(g.v4, x, 0xD80_0000, b);
    Mul64Bound(g.v5, x, 0x6C0_0000, b);
    Mul64Bound(g.v6, x, 0xD80_0000, b);
    Mul64Bound(g.v7, x, 0x6C0_0000, b);
    Mul64Bound(g.v8, x, 0xD80_0000, b);
    Mul64Bound(g.v9, x, 0x6C0_0000, b);
  }

  lemma EvenColumnsFit(r0: Limbs10, r2: Limbs10, r4: Limbs10, r6: Limbs10, r8: Limbs10)
    requires Bounded(r0, 0xD80_0000 * 0xD80_0000, 0x6C0_0000 * 0xD80_0000)
    requires Bounded(r2, 0xD80_0000 * 0xD80_0000, 0x6C0_0000 * 0xD80_0000)
    requires Bounded(r4, 0xD80_0000 * 0xD80_0000, 0x6C0_0000 * 0xD80_0000)
    requires Bounded(r6, 0xD80_0000 * 0xD80_0000, 0x6C0_0000 * 0xD80_0000)
    requires Bounded(r8, 0xD80_0000 * 0xD80_0000, 0x6C0_0000 * 0xD80_0000)
    ensures FoldFits(LowEven(r0, r2, r4, r6, r8), HighEven(r0, r2, r4, r6, r8), 0x3700_0000_0000_0000)
  {
  }

  lemma OddColumnsFit(r1: Limbs10, r3: Limbs10, r5: Limbs10, r7: Limbs10, r9: Limbs10)
    requires Bounded(r1, 0xD80_0000 * 0x6C0_0000, 0x6C0_0000 * 0x6C0_0000)
    requires Bounded(r3, 0xD80_0000 * 0x6C0_0000, 0x6C0_0000 * 0x6C0_0000)
    requires Bounded(r5, 0xD80_0000 * 0x6C0_0000, 0x6C0_0000 * 0x6C0_0000)
    requires Bounded(r7, 0xD80_0000 * 0x6C0_0000, 0x6C0_0000 * 0x6C0_0000)
    requires Bounded(r9, 0xD80_0000 * 0x6C0_0000, 0x6C0_0000 * 0x6C0_0000)
    ensures FoldFits(LowOdd(r1, r3, r5, r7, r9), HighOdd(r1, r3, r5, r7, r9), 0x2200_0000_0000_0000)
  {
  }

  /** Every column plus nineteen times the column ten above it. */
  ghost predicate FoldFits(lo: Limbs10, hi: Limbs10, b: nat)
  {
    && lo.v0 + 19 * hi.v0 <= b && lo.v1 + 19 * hi.v1 <= b && lo.v2 + 19 * hi.v2 <= b
    && lo.v3 + 19 * hi.v3 <= b && lo.v4 + 19 * hi.v4 <= b && lo.v5 + 19 * hi.v5 <= b
    && lo.v6 + 19 * hi.v6 <= b && lo.v7 + 19 * hi.v7 <= b && lo.v8 + 19 * hi.v8 <= b
    && lo.v9 + 19 * hi.v9 <= b
  }

  lemma ProductFits(f: Limbs10, g: Limbs10)
    requires Loose(f) && Loose(g)
    ensures FoldFits(ProductLow(f, g), ProductHigh(f, g), 0x5900_0000_0000_0000)
    ensures ProductHigh(f, g).v9 == 0
  {
    hide Mul64, Scale, LowEven, LowOdd;
    ScaleBound(g, f.v0, 0xD80_0000);
    ScaleBound(g, f.v1, 0x6C0_0000);
    ScaleBound(g, f.v2, 0xD80_0000);
    ScaleBound(g, f.v3, 0x6C0_0000);
    ScaleBound(g, f.v4, 0xD80_0000);
    ScaleBound(g, f.v5, 0x6C0_0000);
    ScaleBound(g, f.v6, 0xD80_0000);
    ScaleBound(g, f.v7, 0x6C0_0000);
    ScaleBound(g, f.v8, 0xD80_0000);
    ScaleBound(g, f.v9, 0x6C0_0000);
    EvenColumnsFit(Scale(g, f.v0), Scale(g, f.v2), Scale(g, f.v4), Scale(g, f.v6), Scale(g, f.v8));
    OddColumnsFit(Scale(g, f.v1), Scale(g, f.v3), Scale(g, f.v5), Scale(g, f.v7), Scale(g, f.v9));
  }

  lemma Mul64Double(a: nat, b: nat)
    ensures Mul64(2 * a, b) == 2 * Mul64(a, b)
  {
  }

  /** The columns x40 to x58 of fe_mul_impl. */
  method MulColumns(f: Limbs10, g: Limbs10) returns (lo: Limbs10, hi: Limbs10)
    requires Loose(f) && Loose(g)
    ensures lo == ProductLow(f, g) && hi == ProductHigh(f, g)
  {
    hide Mul64, Value;
    ProductFits(f, g);
    Mul64Double(g.v1, f.v1);
    Mul64Double(g.v9, f.v9);
    var twice1: u32, twice9: u32 := 2 * g.v1, 2 * g.v9;
    var x40: u64 := Mul64(g.v0, f.v0);
    var x41: u64 := Mul64(g.v0, f.v1) + Mul64(g.v1, f.v0);
    var x42: u64 := Mul64(twice1, f.v1) + Mul64(g.v0, f.v2) + Mul64(g.v2, f.v0);
    var x43: u64 := Mul64(g.v1, f.v2) + Mul64(g.v2, f.v1) + Mul64(g.v0, f.v3) + Mul64(g.v3, f.v0);
    var x44: u64 := Mul64(g.v2, f.v2) + 2 * (Mul64(g.v1, f.v3) + Mul64(g.v3, f.v1)) + Mul64(g.v0, f.v4) +
        Mul64(g.v4, f.v0);
    var x45: u64 := Mul64(g.v2, f.v3) + Mul64(g.v3, f.v2) + Mul64(g.v1, f.v4) + Mul64(g.v4, f.v1) +
        Mul64(g.v0, f.v5) + Mul64(g.v5, f.v0);
    var x46: u64 := 2 * (Mul64(g.v3, f.v3) + Mul64(g.v1, f.v5) + Mul64(g.v5, f.v1)) + Mul64(g.v2, f.v4) +
        Mul64(g.v4, f.v2) + Mul64(g.v0, f.v6) + Mul64(g.v6, f.v0);
    var x47: u64 := Mul64(g.v3, f.v4) + Mul64(g.v4, f.v3) + Mul64(g.v2, f.v5) + Mul64(g.v5, f.v2) +
        Mul64(g.v1, f.v6) + Mul64(g.v6, f.v1) + Mul64(g.v0, f.v7) + Mul64(g.v7, f.v0);
    var x48: u64 := Mul64(g.v4, f.v4) + 2 * (Mul64(g.v3, f.v5) + Mul64(g.v5, f.v3) + Mul64(g.v1, f.v7) +
        Mul64(g.v7, f.v1)) + Mul64(g.v2, f.v6) + Mul64(g.v6, f.v2) + Mul64(g.v0, f.v8) + Mul64(g.v8, f.v0);
    var x49: u64 := Mul64(g.v4, f.v5) + Mul64(g.v5, f.v4) + Mul64(g.v3, f.v6) + Mul64(g.v6, f.v3) +
        Mul64(g.v2, f.v7) + Mul64(g.v7, f.v2) + Mul64(g.v1, f.v8) + Mul64(g.v8, f.v1) + Mul64(g.v0, f.v9) +
        Mul64(g.v9, f.v0);
    var x50: u64 := 2 * (Mul64(g.v5, f.v5) + Mul64(g.v3, f.v7) + Mul64(g.v7, f.v3) + Mul64(g.v1, f.v9) +
        Mul64(g.v9, f.v1)) + Mul64(g.v4, f.v6) + Mul64(g.v6, f.v4) + Mul64(g.v2, f.v8) + Mul64(g.v8, f.v2);
    var x51: u64 := Mul64(g.v5, f.v6) + Mul64(g.v6, f.v5) + Mul64(g.v4, f.v7) + Mul64(g.v7, f.v4) +
        Mul64(g.v3, f.v8) + Mul64(g.v8, f.v3) + Mul64(g.v2, f.v9) + Mul64(g.v9, f.v2);
    var x52: u64 := Mul64(g.v6, f.v6) + 2 * (Mul64(g.v5, f.v7) + Mul64(g.v7, f.v5) + Mul64(g.v3, f.v9) +
        Mul64(g.v9, f.v3)) + Mul64(g.v4, f.v8) + Mul64(g.v8, f.v4);
    var x53: u64 := Mul64(g.v6, f.v7) + Mul64(g.v7, f.v6) + Mul64(g.v5, f.v8) + Mul64(g.v8, f.v5) +
        Mul64(g.v4, f.v9) + Mul64(g.v9, f.v4);
    var x54: u64 := 2 * (Mul64(g.v7, f.v7) + Mul64(g.v5, f.v9) + Mul64(g.v9, f.v5)) + Mul64(g.v6, f.v8) +
        Mul64(g.v8, f.v6);
    var x55: u64 := Mul64(g.v7, f.v8) + Mul64(g.v8, f.v7) + Mul64(g.v6, f.v9) + Mul64(g.v9, f.v6);
    var x56: u64 := Mul64(g.v8, f.v8) + 2 * (Mul64(g.v7, f.v9) + Mul64(g.v9, f.v7));
    var x57: u64 := Mul64(g.v8, f.v9) + Mul64(g.v9, f.v8);
    var x58: u64 := Mul64(twice9, f.v9);
    lo := Limbs10(x40, x41, x42, x43, x44, x45, x46, x47, x48, x49);
    hi := Limbs10(x50, x51, x52, x53, x54, x55, x56, x57, x58, 0);
  }


  lemma Mul64Commutes(a: nat, b: nat)
    ensures Mul64(a, b) == Mul64(b, a)
  {
  }

  lemma ScaleCommutes(f: Limbs10, x: nat)
    ensures Scale(f, x) == Limbs10(Mul64(x, f.v0), Mul64(x, f.v1), Mul64(x, f.v2), Mul64(x, f.v3), Mul64(x, f.v4),
                                   Mul64(x, f.v5), Mul64(x, f.v6), Mul64(x, f.v7), Mul64(x, f.v8), Mul64(x, f.v9))
  {
    hide Mul64;
    Mul64Commutes(f.v0, x);
    Mul64Commutes(f.v1, x);
    Mul64Commutes(f.v2, x);
    Mul64Commutes(f.v3, x);
    Mul64Commutes(f.v4, x);
    Mul64Commutes(f.v5, x);
    Mul64Commutes(f.v6, x);
    Mul64Commutes(f.v7, x);
    Mul64Commutes(f.v8, x);
    Mul64Commutes(f.v9, x);
  }

  /** The columns x19 to x28 of fe_sqr_impl are those of the product of f with itself. */
  method SqrLow(f: Limbs10) returns (lo: Limbs10)
    requires Loose(f)
    ensures lo == ProductLow(f, f)
  {
    hide Mul64, Value;
    ProductFits(f, f);
    ScaleCommutes(f, f.v0); ScaleCommutes(f, f.v1); ScaleCommutes(f, f.v2); ScaleCommutes(f, f.v3);
    ScaleCommutes(f, f.v4); ScaleCommutes(f, f.v5); ScaleCommutes(f, f.v6); ScaleCommutes(f, f.v7);
    ScaleCommutes(f, f.v8); ScaleCommutes(f, f.v9);
    Mul64Double(f.v0, f.v1);
    Mul64Double(f.v1, f.v3);
    Mul64Double(2 * f.v1, f.v3);
    Mul64Double(f.v0, f.v4);
    Mul64Double(f.v1, f.v5);
    var twice0: u32, four1: u32, twice1: u32 := 2 * f.v0, 4 * f.v1, 2 * f.v1;
    var x19: u64 := Mul64(f.v0, f.v0);
    var x20: u64 := Mul64(twice0, f.v1);
    var x21: u64 := 2 * (Mul64(f.v1, f.v1) + Mul64(f.v0, f.v2));
    var x22: u64 := 2 * (Mul64(f.v1, f.v2) + Mul64(f.v0, f.v3));
    var x23: u64 := Mul64(f.v2, f.v2) + Mul64(four1, f.v3) + Mul64(twice0, f.v4);
    var x24: u64 := 2 * (Mul64(f.v2, f.v3) + Mul64(f.v1, f.v4) + Mul64(f.v0, f.v5));
    var x25: u64 := 2 * (Mul64(f.v3, f.v3) + Mul64(f.v2, f.v4) + Mul64(f.v0, f.v6) + Mul64(twice1, f.v5));
    var x26: u64 := 2 * (Mul64(f.v3, f.v4) + Mul64(f.v2, f.v5) + Mul64(f.v1, f.v6) + Mul64(f.v0, f.v7));
    var x27: u64 := Mul64(f.v4, f.v4) + 2 * (Mul64(f.v2, f.v6) + Mul64(f.v0, f.v8) + 2 * (Mul64(f.v1, f.v7) +
        Mul64(f.v3, f.v5)));
    var x28: u64 := 2 * (Mul64(f.v4, f.v5) + Mul64(f.v3, f.v6) + Mul64(f.v2, f.v7) + Mul64(f.v1, f.v8) +
        Mul64(f.v0, f.v9));
    lo := Limbs10(x19, x20, x21, x22, x23, x24, x25, x26, x27, x28);
  }

  /** The columns x29 to x37 of fe_sqr_impl. */
  method SqrHigh(f: Limbs10) returns (hi: Limbs10)
    requires Loose(f)
    ensures hi == ProductHigh(f, f)
  {
    hide Mul64, Value;
    ProductFits(f, f);
    ScaleCommutes(f, f.v0); ScaleCommutes(f, f.v1); ScaleCommutes(f, f.v2); ScaleCommutes(f, f.v3);
    ScaleCommutes(f, f.v4); ScaleCommutes(f, f.v5); ScaleCommutes(f, f.v6); ScaleCommutes(f, f.v7);
    ScaleCommutes(f, f.v8); ScaleCommutes(f, f.v9);
    Mul64Double(f.v5, f.v9);
    Mul64Double(f.v7, f.v9);
    Mul64Double(2 * f.v7, f.v9);
    Mul64Double(f.v8, f.v9);
    Mul64Double(f.v9, f.v9);
    var twice5: u32, four7: u32, twice8: u32, twice9: u32 := 2 * f.v5, 4 * f.v7, 2 * f.v8, 2 * f.v9;
    var x29: u64 := 2 * (Mul64(f.v5, f.v5) + Mul64(f.v4, f.v6) + Mul64(f.v2, f.v8) + 2 * (Mul64(f.v3, f.v7) +
        Mul64(f.v1, f.v9)));
    var x30: u64 := 2 * (Mul64(f.v5, f.v6) + Mul64(f.v4, f.v7) + Mul64(f.v3, f.v8) + Mul64(f.v2, f.v9));
    var x31: u64 := Mul64(f.v6, f.v6) + 2 * (Mul64(f.v4, f.v8) + 2 * (Mul64(f.v5, f.v7) + Mul64(f.v3, f.v9)));
    var x32: u64 := 2 * (Mul64(f.v6, f.v7) + Mul64(f.v5, f.v8) + Mul64(f.v4, f.v9));
    var x33: u64 := 2 * (Mul64(f.v7, f.v7) + Mul64(f.v6, f.v8) + Mul64(twice5, f.v9));
    var x34: u64 := 2 * (Mul64(f.v7, f.v8) + Mul64(f.v6, f.v9));
    var x35: u64 := Mul64(f.v8, f.v8) + Mul64(four7, f.v9);
    var x36: u64 := Mul64(twice8, f.v9);
    var x37: u64 := Mul64(twice9, f.v9);
    hi := Limbs10(x29, x30, x31, x32, x33, x34, x35, x36, x37, 0);
  }

  /** `x + (y << 4) + (y << 1) + y` */
  method AddNineteen(x: u64, y: u64) returns (r: u64)
    requires x + 19 * y < 0x1_0000_0000_0000_0000
    ensures r == x + 19 * y
  {
    var a: u64 := x + y * 16;
    var b: u64 := a + y * 2;
    r := b + y;
  }

  /** The columns from 2^255 up fold onto the ones below, as 2^255 is 19. */
  method FoldColumns(lo: Limbs10, hi: Limbs10) returns (c: Limbs10)
    requires FoldFits(lo, hi, 0x5900_0000_0000_0000) && hi.v9 == 0
    ensures FoldFits(c, Limbs10(0, 0, 0, 0, 0, 0, 0, 0, 0, 0), 0x5900_0000_0000_0000)
    ensures Value(c) == Value(lo) + 19 * Value(hi)
  {
    var c0 := AddNineteen(lo.v0, hi.v0);
    var c1 := AddNineteen(lo.v1, hi.v1);
    var c2 := AddNineteen(lo.v2, hi.v2);
    var c3 := AddNineteen(lo.v3, hi.v3);
    var c4 := AddNineteen(lo.v4, hi.v4);
    var c5 := AddNineteen(lo.v5, hi.v5);
    var c6 := AddNineteen(lo.v6, hi.v6);
    var c7 := AddNineteen(lo.v7, hi.v7);
    var c8 := AddNineteen(lo.v8, hi.v8);
    c := Limbs10(c0, c1, c2, c3, c4, c5, c6, c7, c8, lo.v9);
  }

  /** `x >> 26` and `x & 0x3ffffff` */
  method Split26(x: u64) returns (q: u64, r: u32)
    ensures x == W1 * q + r && r < W1
  {
    q, r := x / W1, x % W1;
  }

  /** `x >> 25` and `x & 0x1ffffff` */
  method Split25(x: u64) returns (q: u64, r: u32)
    ensures x == 0x200_0000 * q + r && r < 0x200_0000
  {
    q, r := x / 0x200_0000, x % 0x200_0000;
  }

  /** The carry chain from the lowest limb to the highest. */
  method CarryAround(c: Limbs10) returns (h: Limbs10, top: u64)
    requires FoldFits(c, Limbs10(0, 0, 0, 0, 0, 0, 0, 0, 0, 0), 0x5900_0000_0000_0000)
    ensures Bounded(h, 0x3FF_FFFF, 0x1FF_FFFF)
    ensures Value(h) + TWO255 * top == Value(c) && top < 0x80_0000_0000
  {
    var q: u64, h0: u32, h1: u32, h2: u32, h3: u32, h4: u32, h5: u32, h6: u32, h7: u32, h8: u32, h9: u32;
    q, h0 := Split26(c.v0);
    q, h1 := Split25(q + c.v1);
    q, h2 := Split26(q + c.v2);
    q, h3 := Split25(q + c.v3);
    q, h4 := Split26(q + c.v4);
    q, h5 := Split25(q + c.v5);
    q, h6 := Split26(q + c.v6);
    q, h7 := Split25(q + c.v7);
    q, h8 := Split26(q + c.v8);
    top, h9 := Split25(q + c.v9);
    h := Limbs10(h0, h1, h2, h3, h4, h5, h6, h7, h8, h9);
  }

  /** Once around, and three limbs more. */
  method CarryColumns(c: Limbs10) returns (h: Limbs10)
    requires FoldFits(c, Limbs10(0, 0, 0, 0, 0, 0, 0, 0, 0, 0), 0x5900_0000_0000_0000)
    ensures Tight(h)
    ensures Cong(Value(h), Value(c), P)
  {
    hide Cong, Value;
    var f, top := CarryAround(c);
    var low: u64 := f.v0 + 19 * top;
    var q0, h0 := Split26(low);
    var x116: u32 := q0;
    var x118: u32 := x116 + f.v1;
    var q1, h1 := Split25(x118);
    h := f.(v0 := h0, v1 := h1, v2 := q1 + f.v2);
    CarryTail(f, top, h0, q0, h1, q1);
    CongShift(Value(h), top, P);
  }

  lemma CarryTail(f: Limbs10, top: nat, h0: nat, q0: nat, h1: nat, q1: nat)
    requires f.v0 + 19 * top == W1 * q0 + h0 && q0 + f.v1 == 0x200_0000 * q1 + h1
    ensures Value(f.(v0 := h0, v1 := h1, v2 := q1 + f.v2)) + P * top == Value(f) + TWO255 * top
  {
  }

  /** fe_mul_impl */
  method Mul(f: Limbs10, g: Limbs10) returns (h: Limbs10)
    requires Loose(f) && Loose(g)
    ensures Tight(h)
    ensures Cong(Value(h), Value(f) * Value(g), P)
  {
    hide Value, Cong, Loose, Tight, ProductLow, ProductHigh;
    ProductFits(f, g);
    ProductValue(f, g);
    var lo, hi := MulColumns(f, g);
    h := Reduce(lo, hi);
  }

  /** fe_sqr_impl */
  method Sqr(f: Limbs10) returns (h: Limbs10)
    requires Loose(f)
    ensures Tight(h)
    ensures Cong(Value(h), Value(f) * Value(f), P)
  {
    hide Value, Cong, Loose, Tight, ProductLow, ProductHigh;
    ProductFits(f, f);
    ProductValue(f, f);
    var lo := SqrLow(f);
    var hi := SqrHigh(f);
    h := Reduce(lo, hi);
  }

  /** The tail that fe_mul_impl and fe_sqr_impl share. */
  method Reduce(lo: Limbs10, hi: Limbs10) returns (h: Limbs10)
    requires FoldFits(lo, hi, 0x5900_0000_0000_0000) && hi.v9 == 0
    ensures Tight(h)
    ensures Cong(Value(h), Value(lo) + TWO255 * Value(hi), P)
  {
    hide Value, Cong, Tight;
    var c := FoldColumns(lo, hi);
    h := CarryColumns(c);
    CongShift(Value(c), Value(hi), P);
    CongTrans(Value(h), Value(c), Value(lo) + TWO255 * Value(hi), P);
  }
}
