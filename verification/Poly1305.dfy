/** crypto/poly1305.c: the one-time authenticator of section 2.5 of RFC 8439,
    fed in pieces. */
module Poly1305 {
  import opened Arith
  import opened Bits
  import opened Limbs
  import opened NumberTheory
  import opened Poly1305Field
  import opened Machine

  const R128: int := 0x1_0000_0000_0000_0000_0000_0000_0000_0000
  const HIBIT: int := 0x100_0000

  /** The clamp of RFC 8439, section 2.5. */
  function Clamp(r: nat): (c: nat)
  {
    And(r, 0x0FFF_FFFC_0FFF_FFFC_0FFF_FFFC_0FFF_FFFF)
  }

  /** The accumulator after a message, block by block: add the block with a one
      byte behind it, multiply by r, reduce. */
  ghost function Accumulate(acc: nat, r: nat, msg: seq<byte>): (a: nat)
    decreases |msg|
  {
    if |msg| == 0 then acc
    else
      var n := if |msg| < 16 then |msg| else 16;
      MulNonNeg(acc + Val(msg[..n], 256) + Pow(256, n), r);
      Accumulate(((acc + Val(msg[..n], 256) + Pow(256, n)) * r) % P, r, msg[n..])
  }

  /** The tag of RFC 8439, section 2.5, as a number. */
  ghost function Tag(key: seq<byte>, msg: seq<byte>): (t: nat)
    requires |key| == 32
  {
    (Accumulate(0, Clamp(Val(key[..16], 256)), msg) + Val(key[16..], 256)) % R128
  }

  /** Whole blocks can be accumulated first. */
  lemma {:induction false} AccumulateConcat(acc: nat, r: nat, a: seq<byte>, b: seq<byte>)
    requires |a| % 16 == 0
    ensures Accumulate(acc, r, a + b) == Accumulate(Accumulate(acc, r, a), r, b)
    decreases |a|
  {
    hide Val, Pow;
    if |a| == 0 {
      assert a + b == b;
    } else {
      assert (a + b)[..16] == a[..16] && (a + b)[16..] == a[16..] + b;
      MulNonNeg(acc + Val(a[..16], 256) + Pow(256, 16), r);
      AccumulateConcat(((acc + Val(a[..16], 256) + Pow(256, 16)) * r) % P, r, a[16..], b);
    }
  }

  /** What poly1305_blocks computes: j blocks of m, each with hi added. */
  ghost function Absorb(acc: nat, r: nat, m: seq<byte>, hi: nat, j: nat): (a: nat)
    requires 16 * j <= |m|
  {
    if j == 0 then acc
    else
      MulNonNeg(Absorb(acc, r, m, hi, j - 1) + Val(m[16 * j - 16..16 * j], 256) + hi, r);
      ((Absorb(acc, r, m, hi, j - 1) + Val(m[16 * j - 16..16 * j], 256) + hi) * r) % P
  }

  lemma AccumulateEmpty(acc: nat, r: nat)
    ensures Accumulate(acc, r, []) == acc
  {
  }

  lemma AccumulateWhole(acc: nat, r: nat, a: seq<byte>, b: seq<byte>)
    requires |a| % 16 == 0 && |b| == 16
    ensures (Accumulate(acc, r, a) + Val(b, 256) + R128) * r >= 0
    ensures Accumulate(acc, r, a + b) == ((Accumulate(acc, r, a) + Val(b, 256) + R128) * r) % P
  {
    hide Val, Pow, Accumulate;
    AccumulateConcat(acc, r, a, b);
    AccumulateBlock(Accumulate(acc, r, a), r, b);
    Pow16();
  }

  /** With the high bit set, the blocks are those of the message. */
  lemma {:induction false} AbsorbIsAccumulate(acc: nat, r: nat, m: seq<byte>, j: nat)
    requires 16 * j <= |m|
    ensures Absorb(acc, r, m, R128, j) == Accumulate(acc, r, m[..16 * j])
  {
    hide Val, Pow, Absorb, Accumulate;
    if j == 0 {
      AbsorbStart(acc, r, m, R128);
      assert m[..0] == [];
      AccumulateEmpty(acc, r);
    } else {
      AbsorbIsAccumulate(acc, r, m, j - 1);
      AbsorbNext(acc, r, m, R128, j);
      AccumulateWhole(acc, r, m[..16 * j - 16], m[16 * j - 16..16 * j]);
      assert m[..16 * j] == m[..16 * j - 16] + m[16 * j - 16..16 * j];
    }
  }

  /** A step on congruent accumulators. */
  lemma AbsorbStep(v: int, acc: nat, b: nat, hi: nat, r: nat, w: int)
    requires Cong(v, acc, P) && Cong(w, (v + b + hi) * r, P)
    ensures (acc + b + hi) * r >= 0
    ensures Cong(w, ((acc + b + hi) * r) % P, P)
  {
    hide Cong;
    MulNonNeg(acc + b + hi, r);
    CongRefl(b + hi, P);
    CongAdd(v, acc, b + hi, b + hi, P);
    CongScale(v + (b + hi), acc + (b + hi), r, P);
    CongTrans(w, (v + b + hi) * r, (acc + b + hi) * r, P);
    CongRemainder((acc + b + hi) * r, P);
    CongSym(((acc + b + hi) * r) % P, (acc + b + hi) * r, P);
    CongTrans(w, (acc + b + hi) * r, ((acc + b + hi) * r) % P, P);
  }

  /** One block, whole or the last short one, takes the accumulator one step. */
  lemma AccumulateBlock(acc: nat, r: nat, m: seq<byte>)
    requires 0 < |m| <= 16
    ensures (acc + Val(m, 256) + Pow(256, |m|)) * r >= 0
    ensures Accumulate(acc, r, m) == ((acc + Val(m, 256) + Pow(256, |m|)) * r) % P
  {
    hide Val, Pow;
    assert m[..|m|] == m && m[|m|..] == [];
    MulNonNeg(acc + Val(m, 256) + Pow(256, |m|), r);
  }

  /** The body of the loop of poly1305_blocks. */
  method BlockStep(h0: u32, h1: u32, h2: u32, h3: u32, h4: u32, r0: u32, r1: u32, r2: u32, r3: u32, r4: u32,
                   m: seq<byte>, hibit: u32)
    returns (g0: u32, g1: u32, g2: u32, g3: u32, g4: u32)
    requires Reduced(h0, h1, h2, h3, h4) && Clamped(r0, r1, r2, r3, r4)
    requires |m| == 16 && (hibit == 0 || hibit == HIBIT)
    ensures Reduced(g0, g1, g2, g3, g4)
    ensures Cong(Limbs5(g0, g1, g2, g3, g4),
                 (Limbs5(h0, h1, h2, h3, h4) + Val(m, 256) + (if hibit == 0 then 0 else R128))
                 * Limbs5(r0, r1, r2, r3, r4), P)
  {
    hide Val, Cong, Or, Limb0, Limb1, Limb2, Limb3, Limb4;
    BlockLimbs(m);
    LimbMasks(m, hibit);
    g0 := h0 as int + And(U8To32(m[0], m[1], m[2], m[3]), 0x3FF_FFFF);
    g1 := h1 as int + And(U8To32(m[3], m[4], m[5], m[6]) / 4, 0x3FF_FFFF);
    g2 := h2 as int + And(U8To32(m[6], m[7], m[8], m[9]) / 16, 0x3FF_FFFF);
    g3 := h3 as int + And(U8To32(m[9], m[10], m[11], m[12]) / 64, 0x3FF_FFFF);
    g4 := h4 as int + Or(U8To32(m[12], m[13], m[14], m[15]) / 256, hibit);
    ghost var v := Limbs5(g0, g1, g2, g3, g4);
    assert v == Limbs5(h0, h1, h2, h3, h4) + Val(m, 256) + (if hibit == 0 then 0 else R128);
    var d0, d1, d2, d3, d4 := Multiply(g0, g1, g2, g3, g4, r0, r1, r2, r3, r4);
    g0, g1, g2, g3, g4 := CarryChain(d0, d1, d2, d3, d4);
    CongTrans(Limbs5(g0, g1, g2, g3, g4), Limbs5(d0, d1, d2, d3, d4), v * Limbs5(r0, r1, r2, r3, r4), P);
  }

  /** The masked and shifted words are the limbs of the block. */
  lemma LimbMasks(m: seq<byte>, hibit: u32)
    requires |m| == 16 && (hibit == 0 || hibit == HIBIT)
    ensures And(U8To32(m[0], m[1], m[2], m[3]), 0x3FF_FFFF) == Limb0(m) < X1
    ensures And(U8To32(m[3], m[4], m[5], m[6]) / 4, 0x3FF_FFFF) == Limb1(m) < X1
    ensures And(U8To32(m[6], m[7], m[8], m[9]) / 16, 0x3FF_FFFF) == Limb2(m) < X1
    ensures And(U8To32(m[9], m[10], m[11], m[12]) / 64, 0x3FF_FFFF) == Limb3(m) < X1
    ensures Or(U8To32(m[12], m[13], m[14], m[15]) / 256, hibit) == Limb4(m) + hibit
  {
    hide And, Or, Pow2, U8To32;
    Pow2Literals();
    Pow2Of26();
    AndLowMask(U8To32(m[0], m[1], m[2], m[3]), 26);
    AndLowMask(U8To32(m[3], m[4], m[5], m[6]) / 4, 26);
    AndLowMask(U8To32(m[6], m[7], m[8], m[9]) / 16, 26);
    AndLowMask(U8To32(m[9], m[10], m[11], m[12]) / 64, 26);
    var q: nat := if hibit == 0 then 0 else 1;
    assert hibit == q * Pow2(24);
    OrDisjoint(hibit, Limb4(m), 24);
  }

  lemma Pow2Of26()
    ensures Pow2(24) == 0x100_0000 && Pow2(26) == X1
  {
    Pow2Literals();
    Pow2Add(8, 16);
    Pow2Add(8, 18);
    Pow2Add(2, 16);
    assert Pow2(2) == 4;
  }

  /** Masking limb by limb is the clamp of the whole number. */
  lemma ClampLimbs(l0: nat, l1: nat, l2: nat, l3: nat, l4: nat)
    requires l0 < X1 && l1 < X1 && l2 < X1 && l3 < X1
    ensures Clamp(Limbs5(l0, l1, l2, l3, l4))
         == Limbs5(And(l0, 0x3FF_FFFF), And(l1, 0x3FF_FF03), And(l2, 0x3FF_C0FF),
                   And(l3, 0x3F0_3FFF), And(l4, 0xF_FFFF))
  {
    hide And, Pow2;
    Pow2Of26();
    AndSplit(l3, l4, 0x3F0_3FFF, 0xF_FFFF, 26);
    AndSplit(l2, l3 + X1 * l4, 0x3FF_C0FF, 0x3F0_3FFF + X1 * 0xF_FFFF, 26);
    AndSplit(l1, l2 + X1 * (l3 + X1 * l4), 0x3FF_FF03, 0x3FF_C0FF + X1 * (0x3F0_3FFF + X1 * 0xF_FFFF), 26);
    AndSplit(l0, l1 + X1 * (l2 + X1 * (l3 + X1 * l4)), 0x3FF_FFFF,
             0x3FF_FF03 + X1 * (0x3FF_C0FF + X1 * (0x3F0_3FFF + X1 * 0xF_FFFF)), 26);
  }

  /** A mask below 2^26 ignores the bits above. */
  lemma MaskLow26(x: nat, mask: nat)
    requires mask < X1
    ensures And(x, mask) == And(x % X1, mask) <= mask
  {
    hide And, Pow2;
    Pow2Of26();
    AndSplit(x % X1, x / X1, mask, 0, 26);
    AndZero(x / X1);
    AndBelow(x % X1, mask);
  }

  /** The masks of poly1305_begin see only their limb. */
  lemma MaskedLimbs(key: seq<byte>)
    requires |key| == 16
    ensures Limb0(key) < X1 && Limb1(key) < X1 && Limb2(key) < X1 && Limb3(key) < X1
    ensures And(U8To32(key[0], key[1], key[2], key[3]), 0x3FF_FFFF) == And(Limb0(key), 0x3FF_FFFF) <= 0x3FF_FFFF
    ensures And(U8To32(key[3], key[4], key[5], key[6]) / 4, 0x3FF_FF03) == And(Limb1(key), 0x3FF_FF03) <= 0x3FF_FF03
    ensures And(U8To32(key[6], key[7], key[8], key[9]) / 16, 0x3FF_C0FF) == And(Limb2(key), 0x3FF_C0FF) <= 0x3FF_C0FF
    ensures And(U8To32(key[9], key[10], key[11], key[12]) / 64, 0x3F0_3FFF) == And(Limb3(key), 0x3F0_3FFF) <= 0x3F0_3FFF
    ensures And(U8To32(key[12], key[13], key[14], key[15]) / 256, 0xF_FFFF) == And(Limb4(key), 0xF_FFFF) <= 0xF_FFFF
  {
    hide And, U8To32, Word4;
    MaskLow26(U8To32(key[0], key[1], key[2], key[3]), 0x3FF_FFFF);
    MaskLow26(U8To32(key[3], key[4], key[5], key[6]) / 4, 0x3FF_FF03);
    MaskLow26(U8To32(key[6], key[7], key[8], key[9]) / 16, 0x3FF_C0FF);
    MaskLow26(U8To32(key[9], key[10], key[11], key[12]) / 64, 0x3F0_3FFF);
    AndBelow(Limb4(key), 0xF_FFFF);
  }

  /** The five limbs of r, and its clamp. */
  method LoadR(key: seq<byte>) returns (r0: u32, r1: u32, r2: u32, r3: u32, r4: u32)
    requires |key| == 16
    ensures Clamped(r0, r1, r2, r3, r4)
    ensures Limbs5(r0, r1, r2, r3, r4) == Clamp(Val(key, 256))
  {
    hide And, Val, U8To32, Clamp, Limbs5, Word4, Limb0, Limb1, Limb2, Limb3, Limb4;
    BlockLimbs(key);
    MaskedLimbs(key);
    ClampLimbs(Limb0(key), Limb1(key), Limb2(key), Limb3(key), Limb4(key));
    r0 := And(U8To32(key[0], key[1], key[2], key[3]), 0x3FF_FFFF);
    r1 := And(U8To32(key[3], key[4], key[5], key[6]) / 4, 0x3FF_FF03);
    r2 := And(U8To32(key[6], key[7], key[8], key[9]) / 16, 0x3FF_C0FF);
    r3 := And(U8To32(key[9], key[10], key[11], key[12]) / 64, 0x3F0_3FFF);
    r4 := And(U8To32(key[12], key[13], key[14], key[15]) / 256, 0xF_FFFF);
  }

  /** `c = h >> 26; h = h & 0x3ffffff` */
  method SplitWord(x: u32) returns (c: u32, h: u32)
    ensures x == X1 * c + h && h < X1
  {
    c, h := x / X1, x % X1;
  }

  /** The full carry of poly1305_finish: afterwards every limb has 26 bits. */
  method FullCarry(a0: u32, a1: u32, a2: u32, a3: u32, a4: u32)
    returns (h0: u32, h1: u32, h2: u32, h3: u32, h4: u32)
    requires Reduced(a0, a1, a2, a3, a4)
    ensures h0 < X1 && h1 < X1 && h2 < X1 && h3 < X1 && h4 < X1
    ensures Cong(Limbs5(h0, h1, h2, h3, h4), Limbs5(a0, a1, a2, a3, a4), P)
  {
    var c: u32;
    c, h1 := SplitWord(a1);
    c, h2 := SplitWord(a2 + c);
    c, h3 := SplitWord(a3 + c);
    c, h4 := SplitWord(a4 + c);
    ghost var top: int := c;
    c, h0 := SplitWord(a0 + c * 5);
    h1 := h1 + c;
    assert Limbs5(h0, h1, h2, h3, h4) - Limbs5(a0, a1, a2, a3, a4) == P * (-top);
    DividesIntro(P, Limbs5(h0, h1, h2, h3, h4) - Limbs5(a0, a1, a2, a3, a4), -top);
  }

  /** The width of unsigned long. */
  type UlongBits = n: nat | n == 32 || n == 64 witness 32
  const ULONG_BITS: UlongBits

  /** One more than the largest unsigned long. */
  function Ulong(): (m: int)
    ensures m == 0x1_0000_0000 || m == 0x1_0000_0000_0000_0000
  {
    Pow2Literals();
    Pow2(ULONG_BITS)
  }

  /** Wrap-around of a small negative number. */
  function WrapUlong(x: int): (r: nat)
    requires -Ulong() <= x < Ulong()
  {
    if x < 0 then x + Ulong() else x
  }

  /** `(g4 >> ((sizeof(unsigned long) * 8) - 1)) - 1`: zero when the subtraction
      wrapped, all ones otherwise. */
  function SelectMask(g4: nat): (mask: nat)
    requires g4 < Ulong()
  {
    MaskShift(g4);
    WrapUlong(g4 / Pow2(ULONG_BITS - 1) - 1)
  }

  lemma MaskShift(g4: nat)
    requires g4 < Ulong()
    ensures g4 / Pow2(ULONG_BITS - 1) == if g4 < Pow2(ULONG_BITS - 1) then 0 else 1
    ensures Ulong() == 2 * Pow2(ULONG_BITS - 1)
    ensures g4 < X1 ==> g4 < Pow2(ULONG_BITS - 1)
  {
    var p := Pow2(ULONG_BITS - 1);
    assert Pow2(ULONG_BITS) == 2 * p;
    DivModUnique(g4, p, if g4 < p then 0 else 1, if g4 < p then g4 else g4 - p);
  }

  /** `(h & ~mask) | (g & mask)` */
  function Choose(h: nat, g: nat, mask: nat): (r: nat)
    requires mask == 0 || mask == Ulong() - 1
    requires h < X1 && g < Ulong()
    ensures r == if mask == 0 then h else g
  {
    ChooseOr(h, g, mask);
    Or(And(h, Ulong() - 1 - mask), And(g, mask))
  }

  lemma ChooseOr(h: nat, g: nat, mask: nat)
    requires mask == 0 || mask == Ulong() - 1
    requires h < X1 && g < Ulong()
    ensures Or(And(h, Ulong() - 1 - mask), And(g, mask)) == if mask == 0 then h else g
  {
    hide And, Or, Pow2;
    AndZero(h);
    AndZero(g);
    AndLowMask(h, ULONG_BITS);
    AndLowMask(g, ULONG_BITS);
    DivModUnique(h, Ulong(), 0, h);
    DivModUnique(g, Ulong(), 0, g);
    OrZero(h);
    OrZero(g);
  }

  /** Select h if h < p, or h - p if h >= p. */
  method Select(h0: u32, h1: u32, h2: u32, h3: u32, h4: u32)
    returns (s0: u32, s1: u32, s2: u32, s3: u32, s4: u32)
    requires h0 < X1 && h1 < X1 && h2 < X1 && h3 < X1 && h4 < X1
    ensures s0 < X1 && s1 < X1 && s2 < X1 && s3 < X1 && s4 < X1
    ensures Limbs5(s0, s1, s2, s3, s4) == Limbs5(h0, h1, h2, h3, h4) % P
  {
    hide And, Or, Pow2, Ulong, Choose;
    var c, g0 := SplitWord(h0 + 5);
    var g1, g2, g3;
    c, g1 := SplitWord(h1 + c);
    c, g2 := SplitWord(h2 + c);
    c, g3 := SplitWord(h3 + c);
    var top: int := h4 as int + c as int - X1;
    ghost var v := Limbs5(h0, h1, h2, h3, h4);
    assert Limbs5(g0, g1, g2, g3, top) == v - P;
    var g4 := WrapUlong(top);
    var mask := SelectMask(g4);
    SelectMaskValue(top);
    s0 := Choose(h0, g0, mask);
    s1 := Choose(h1, g1, mask);
    s2 := Choose(h2, g2, mask);
    s3 := Choose(h3, g3, mask);
    s4 := Choose(h4, g4, mask);
    DivModUnique(v, P, if mask == 0 then 0 else 1, if mask == 0 then v else v - P);
  }

  lemma SelectMaskValue(top: int)
    requires -X1 <= top < X1
    ensures 0 <= WrapUlong(top) < Ulong()
    ensures SelectMask(WrapUlong(top)) == if top < 0 then 0 else Ulong() - 1
  {
    MaskShift(WrapUlong(top));
  }

  /** `h = h % (2^128)`: five 26-bit limbs packed into four 32-bit words.  The
      mask drops what a 64-bit unsigned long keeps above bit 31. */
  function PackWord(low: nat, high: nat, k: nat): (w: u32)
    requires k in {8, 14, 20, 26} && low < Pow2(k)
    ensures w == (low + high * Pow2(k)) % 0x1_0000_0000
  {
    PackOr(low, high, k);
    And(Or(low, high * Pow2(k)), 0xFFFF_FFFF)
  }

  lemma PackOr(low: nat, high: nat, k: nat)
    requires low < Pow2(k)
    ensures high * Pow2(k) >= 0
    ensures And(Or(low, high * Pow2(k)), 0xFFFF_FFFF) == (low + high * Pow2(k)) % 0x1_0000_0000
  {
    hide And, Or, Pow2;
    MulNonNeg(high, Pow2(k));
    OrDisjoint(high * Pow2(k), low, k);
    Pow2Literals();
    AndLowMask(low + high * Pow2(k), 32);
  }

  lemma PackPowers()
    ensures Pow2(8) == 0x100 && Pow2(14) == 0x4000 && Pow2(20) == 0x10_0000 && Pow2(26) == X1
  {
    Pow2Literals();
    Pow2Of26();
    Pow2Add(8, 6);
    assert Pow2(6) == 64;
    Pow2Add(14, 6);
  }

  method Pack(s0: u32, s1: u32, s2: u32, s3: u32, s4: u32) returns (w0: u32, w1: u32, w2: u32, w3: u32)
    requires s0 < X1 && s1 < X1 && s2 < X1 && s3 < X1 && s4 < X1
    ensures Words4(w0, w1, w2, w3) == Limbs5(s0, s1, s2, s3, s4) % R128
  {
    hide PackWord, Pow2, Words4, Limbs5;
    PackPowers();
    w0 := PackWord(s0, s1, 26);
    w1 := PackWord(s1 / 64, s2, 20);
    w2 := PackWord(s2 / 0x1000, s3, 14);
    w3 := PackWord(s3 / 0x4_0000, s4, 8);
    PackSplit(s0, s1, s2, s3, s4);
  }

  /** Four 32-bit words, least significant first. */
  function Words4(w0: int, w1: int, w2: int, w3: int): (v: int)
  {
    w0 + 0x1_0000_0000 * w1 + 0x1_0000_0000_0000_0000 * w2 + 0x1_0000_0000_0000_0000_0000_0000 * w3
  }

  lemma PackSplit(s0: int, s1: int, s2: int, s3: int, s4: int)
    requires 0 <= s0 < X1 && 0 <= s1 < X1 && 0 <= s2 < X1 && 0 <= s3 < X1 && 0 <= s4 < X1
    ensures Words4((s0 + s1 * X1) % 0x1_0000_0000, (s1 / 64 + s2 * 0x10_0000) % 0x1_0000_0000,
                   (s2 / 0x1000 + s3 * 0x4000) % 0x1_0000_0000, (s3 / 0x4_0000 + s4 * 0x100) % 0x1_0000_0000)
         == Limbs5(s0, s1, s2, s3, s4) % R128
  {
    var l1, l2, l3, l4 := s1 % 64, s2 % 0x1000, s3 % 0x4_0000, s4 % 0x100_0000;
    var q1, q2, q3, q4 := s1 / 64, s2 / 0x1000, s3 / 0x4_0000, s4 / 0x100_0000;
    DivModUnique(s0 + s1 * X1, 0x1_0000_0000, q1, s0 + l1 * X1);
    DivModUnique(q1 + s2 * 0x10_0000, 0x1_0000_0000, q2, q1 + l2 * 0x10_0000);
    DivModUnique(q2 + s3 * 0x4000, 0x1_0000_0000, q3, q2 + l3 * 0x4000);
    DivModUnique(q3 + s4 * 0x100, 0x1_0000_0000, q4, q3 + l4 * 0x100);
    DivModUnique(Limbs5(s0, s1, s2, s3, s4), R128, q4,
                 Words4(s0 + l1 * X1, q1 + l2 * 0x10_0000, q2 + l3 * 0x4000, q3 + l4 * 0x100));
  }

  /** `mac = (h + pad) % (2^128)`: a 64-bit sum carries into the next word.  The
      words keep the width of unsigned long; only their low 32 bits reach mac. */
  method AddPad(w0: u32, w1: u32, w2: u32, w3: u32, p0: u32, p1: u32, p2: u32, p3: u32)
    returns (m0: nat, m1: nat, m2: nat, m3: nat)
    ensures Words4(m0 % 0x1_0000_0000, m1 % 0x1_0000_0000, m2 % 0x1_0000_0000, m3 % 0x1_0000_0000)
         == (Words4(w0, w1, w2, w3) + Words4(p0, p1, p2, p3)) % R128
  {
    hide Ulong;
    var f0: u64 := w0 as int + p0 as int;
    var f1: u64 := w1 as int + p1 as int + f0 / 0x1_0000_0000;
    var f2: u64 := w2 as int + p2 as int + f1 / 0x1_0000_0000;
    var f3: u64 := w3 as int + p3 as int + f2 / 0x1_0000_0000;
    m0, m1, m2, m3 := f0 % Ulong(), f1 % Ulong(), f2 % Ulong(), f3 % Ulong();
    TruncateTwice(f0);
    TruncateTwice(f1);
    TruncateTwice(f2);
    TruncateTwice(f3);
    DivModUnique(Words4(w0, w1, w2, w3) + Words4(p0, p1, p2, p3), R128, f3 / 0x1_0000_0000,
                 Words4(f0 % 0x1_0000_0000, f1 % 0x1_0000_0000, f2 % 0x1_0000_0000, f3 % 0x1_0000_0000));
  }

  lemma TruncateTwice(f: u64)
    ensures 0 <= f % Ulong()
    ensures (f % Ulong()) % 0x1_0000_0000 == f % 0x1_0000_0000
  {
  }

  /** U32TO8 */
  function U32To8(v: nat): (b: seq<byte>)
    ensures |b| == 4
    ensures Word4(b[0], b[1], b[2], b[3]) == v % 0x1_0000_0000
  {
    ByteDigits(v);
    [v % 0x100, (v / 0x100) % 0x100, (v / 0x1_0000) % 0x100, (v / 0x100_0000) % 0x100]
  }

  lemma ByteDigits(v: nat)
    ensures Word4(v % 0x100, (v / 0x100) % 0x100, (v / 0x1_0000) % 0x100, (v / 0x100_0000) % 0x100) == v % 0x1_0000_0000
  {
    var q1, q2, q3, q4 := v / 0x100, v / 0x1_0000, v / 0x100_0000, v / 0x1_0000_0000;
    DivModUnique(q1, 0x100, q2, q1 - 0x100 * q2);
    DivModUnique(q2, 0x100, q3, q2 - 0x100 * q3);
    DivModUnique(q3, 0x100, q4, q3 - 0x100 * q4);
    DivModUnique(v, 0x1_0000_0000, q4, v - 0x1_0000_0000 * q4);
  }

  class State {
    var r: seq<u32>
    var h: seq<u32>
    var pad: seq<u32>
    var leftover: nat
    var buffer: seq<byte>
    var final: bool

    /** The key of this message, and the whole blocks absorbed so far. */
    ghost var key: seq<byte>
    ghost var done: seq<byte>

    ghost function R(): (v: nat)
      reads `key
      requires |key| == 32
    {
      Clamp(Val(key[..16], 256))
    }

    ghost predicate Keyed()
      reads `r, `pad, `key
    {
      && |r| == 5 && |pad| == 4 && |key| == 32
      && Clamped(r[0], r[1], r[2], r[3], r[4])
      && Limbs5(r[0], r[1], r[2], r[3], r[4]) == R()
      && Words4(pad[0], pad[1], pad[2], pad[3]) == Val(key[16..], 256)
    }

    ghost predicate Absorbed()
      reads `h, `key, `done
      requires |key| == 32
    {
      && |h| == 5
      && Reduced(h[0], h[1], h[2], h[3], h[4])
      && |done| % 16 == 0
      && Cong(Limbs5(h[0], h[1], h[2], h[3], h[4]), Accumulate(0, R(), done), P)
    }

    ghost predicate Valid()
      reads this
    {
      Keyed() && Absorbed() && |buffer| == 16 && leftover < 16 && !final
    }

    /** Everything passed to poly1305_update so far. */
    ghost function Message(): (m: seq<byte>)
      reads this
      requires |buffer| == 16 && leftover <= 16
    {
      done + buffer[..leftover]
    }

    /** poly1305_begin */
    constructor (k: seq<byte>)
      requires |k| == 32
      ensures Valid() && Message() == [] && key == k
    {
      hide Val, Cong, U8To32;
      var r0, r1, r2, r3, r4 := LoadR(k[..16]);
      PadWords(k[16..]);
      CongRefl(0, P);
      r := [r0, r1, r2, r3, r4];
      h := [0, 0, 0, 0, 0];
      pad := [U8To32(k[16], k[17], k[18], k[19]), U8To32(k[20], k[21], k[22], k[23]),
              U8To32(k[24], k[25], k[26], k[27]), U8To32(k[28], k[29], k[30], k[31])];
      leftover := 0;
      final := false;
      buffer := seq(16, _ => 0);
      key, done := k, [];
    }

    /** poly1305_blocks */
    method Blocks(m: seq<byte>, ghost acc: nat) returns (ghost out: nat)
      requires Keyed() && |h| == 5 && Reduced(h[0], h[1], h[2], h[3], h[4])
      requires Cong(Limbs5(h[0], h[1], h[2], h[3], h[4]), acc, P)
      modifies this`h
      ensures Keyed() && |h| == 5 && Reduced(h[0], h[1], h[2], h[3], h[4])
      ensures out == Absorb(acc, R(), m, if final then 0 else R128, |m| / 16)
      ensures Cong(Limbs5(h[0], h[1], h[2], h[3], h[4]), out, P)
    {
      hide Val, Cong, Clamp, Clamped, Reduced, Limbs5, Words4, Absorb;
      var hibit: u32 := if final then 0 else HIBIT;
      ghost var hi := if final then 0 else R128;
      var h0, h1, h2, h3, h4 := h[0], h[1], h[2], h[3], h[4];
      out := acc;
      AbsorbStart(acc, R(), m, hi);
      var p, bytes := 0, |m|;
      while bytes >= 16
        invariant 0 <= bytes && p + bytes == |m| && p % 16 == 0
        invariant Reduced(h0, h1, h2, h3, h4)
        invariant out == Absorb(acc, R(), m, hi, p / 16)
        invariant Cong(Limbs5(h0, h1, h2, h3, h4), out, P)
      {
        ghost var v := Limbs5(h0, h1, h2, h3, h4);
        var b := m[p..p + 16];
        h0, h1, h2, h3, h4 := BlockStep(h0, h1, h2, h3, h4, r[0], r[1], r[2], r[3], r[4], b, hibit);
        AbsorbStep(v, out, Val(b, 256), hi, R(), Limbs5(h0, h1, h2, h3, h4));
        AbsorbNext(acc, R(), m, hi, p / 16 + 1);
        assert 16 * (p / 16 + 1) == p + 16;
        out := ((out + Val(b, 256) + hi) * R()) % P;
        p, bytes := p + 16, bytes - 16;
      }
      h := [h0, h1, h2, h3, h4];
    }

    /** Whole blocks of the message. */
    method AbsorbBlocks(m: seq<byte>)
      requires Keyed() && Absorbed() && !final && |m| % 16 == 0
      modifies this`h, this`done
      ensures Keyed() && Absorbed() && done == old(done) + m
    {
      hide Val, Cong, Clamp, Clamped, Reduced, Limbs5, Words4, Absorb, Accumulate;
      ghost var acc := Accumulate(0, R(), done);
      var out := Blocks(m, acc);
      AbsorbIsAccumulate(acc, R(), m, |m| / 16);
      assert m[..16 * (|m| / 16)] == m;
      AccumulateConcat(0, R(), done, m);
      done := done + m;
    }

    /** poly1305_update: the state depends only on the bytes so far, not on how
        they were cut. */
    method Update(input: seq<byte>)
      requires Valid()
      modifies this`h, this`done, this`buffer, this`leftover
      ensures Valid() && Message() == old(Message()) + input
    {
      hide Absorbed, Keyed;
      var m := input;
      ghost var before := Message();
      if leftover != 0 {
        var want := 16 - leftover;
        if want > |m| {
          want := |m|;
        }
        CopyIn(m, leftover, want);
        m := m[want..];
        leftover := leftover + want;
        if leftover < 16 {
          return;
        }
        assert buffer[..16] == buffer;
        AbsorbBlocks(buffer);
        leftover := 0;
        assert done == before + input[..want];
      }
      assert done + m == before + input;
      TakeRest(m);
    }

    /** poly1305_update once the buffer is empty: whole blocks, then the tail. */
    method TakeRest(input: seq<byte>)
      requires Valid() && leftover == 0
      modifies this`h, this`done, this`buffer, this`leftover
      ensures Valid() && Message() == old(done) + input
    {
      hide Absorbed, Keyed;
      var m := input;
      if |m| >= 16 {
        var want := |m| - |m| % 16;
        AbsorbBlocks(m[..want]);
        m := m[want..];
      }
      assert done + m == old(done) + input;
      if |m| != 0 {
        CopyIn(m, 0, |m|);
        leftover := leftover + |m|;
        assert buffer[..leftover] == m;
      }
    }

    /** Copy `count` bytes of m into the buffer from `at` on. */
    method CopyIn(m: seq<byte>, at: nat, count: nat)
      requires |buffer| == 16 && at + count <= 16 && count <= |m|
      modifies this`buffer
      ensures |buffer| == 16
      ensures buffer[..at + count] == old(buffer[..at]) + m[..count]
    {
      ghost var B := buffer;
      for i := 0 to count
        invariant |buffer| == 16
        invariant forall k :: 0 <= k < at ==> buffer[k] == B[k]
        invariant forall k :: 0 <= k < i ==> buffer[at + k] == m[k]
      {
        buffer := buffer[at + i := m[i]];
      }
    }

    /** poly1305_finish, the short last block: a one byte, zeros, no high bit. */
    method PadLast()
      requires Valid() && leftover != 0
      modifies this`h, this`buffer, this`final
      ensures Keyed() && |h| == 5 && Reduced(h[0], h[1], h[2], h[3], h[4])
      ensures Cong(Limbs5(h[0], h[1], h[2], h[3], h[4]), Accumulate(0, R(), old(Message())), P)
    {
      hide Val, Cong, Clamp, Clamped, Reduced, Limbs5, Words4, Absorb, Accumulate, Pow;
      ghost var acc := Accumulate(0, R(), done);
      ghost var tail := buffer[..leftover];
      var i := leftover;
      buffer := buffer[i := 1];
      i := i + 1;
      while i < 16
        modifies `buffer
        invariant leftover < i <= 16 && |buffer| == 16
        invariant buffer[..leftover] == tail && buffer[leftover] == 1
        invariant forall k :: leftover < k < i ==> buffer[k] == 0
      {
        buffer := buffer[i := 0];
        i := i + 1;
      }
      final := true;
      var out := Blocks(buffer, acc);
      LastBlock(acc, R(), tail, buffer);
      AccumulateConcat(0, R(), done, tail);
    }

    /** poly1305_finish: the bytes written are the tag of everything passed to
        update since begin, and the secrets are cleared. */
    method Finish(mac: array<byte>)
      requires Valid() && mac.Length >= 16
      modifies this, mac
      ensures Val(mac[..16], 256) == Tag(old(key), old(Message()))
      ensures forall k :: 16 <= k < mac.Length ==> mac[k] == old(mac[k])
      ensures h == [0, 0, 0, 0, 0] && r == [0, 0, 0, 0, 0] && pad == [0, 0, 0, 0]
    {
      hide Val, Cong, Clamp, Clamped, Reduced, Limbs5, Words4, Accumulate;
      ghost var msg, k, r128 := Message(), key, R();
      if leftover != 0 {
        PadLast();
      } else {
        assert msg == done;
      }
      AccumulateBelow(0, r128, msg);
      var bytes := Output(h, pad, Accumulate(0, r128, msg));
      assert Val(bytes, 256) == Tag(k, msg);
      for i := 0 to 16
        invariant forall j :: 0 <= j < i ==> mac[j] == bytes[j]
        invariant forall j :: 16 <= j < mac.Length ==> mac[j] == old(mac[j])
      {
        mac[i] := bytes[i];
      }
      assert mac[..16] == bytes;
      h, r, pad := [0, 0, 0, 0, 0], [0, 0, 0, 0, 0], [0, 0, 0, 0];
    }
  }

  lemma {:induction false} AccumulateBelow(acc: nat, r: nat, m: seq<byte>)
    requires acc < P
    ensures Accumulate(acc, r, m) < P
    decreases |m|
  {
    hide Val, Pow;
    if |m| > 0 {
      var n := if |m| < 16 then |m| else 16;
      MulNonNeg(acc + Val(m[..n], 256) + Pow(256, n), r);
      AccumulateBelow(((acc + Val(m[..n], 256) + Pow(256, n)) * r) % P, r, m[n..]);
    }
  }

  /** A tail, a one byte and zeros are the tail with 256^length added. */
  lemma LastBlock(acc: nat, r: nat, tail: seq<byte>, b: seq<byte>)
    requires 0 < |tail| < 16 == |b| && b[..|tail|] == tail && b[|tail|] == 1
    requires forall k :: |tail| < k < 16 ==> b[k] == 0
    ensures Absorb(acc, r, b, 0, 1) == Accumulate(acc, r, tail)
  {
    hide Val, Pow, Accumulate;
    AccumulateBlock(acc, r, tail);
    AbsorbNext(acc, r, b, 0, 1);
    AbsorbStart(acc, r, b, 0);
    assert b[16 * 1 - 16..16 * 1] == b;
    ValSplit(b, |tail| + 1, 256);
    ValPrefix(b, |tail|, 256);
    ValZeros(b[|tail| + 1..], 256);
  }

  /** From the accumulator to the tag. */
  method Output(h: seq<u32>, pad: seq<u32>, ghost acc: nat) returns (mac: seq<byte>)
    requires |h| == 5 && |pad| == 4 && Reduced(h[0], h[1], h[2], h[3], h[4]) && acc < P
    requires Cong(Limbs5(h[0], h[1], h[2], h[3], h[4]), acc, P)
    ensures |mac| == 16
    ensures Val(mac, 256) == (acc + Words4(pad[0], pad[1], pad[2], pad[3])) % R128
  {
    hide Val, Cong, Reduced, Limbs5, Words4, Word4, U32To8;
    var h0, h1, h2, h3, h4 := FullCarry(h[0], h[1], h[2], h[3], h[4]);
    CongTrans(Limbs5(h0, h1, h2, h3, h4), Limbs5(h[0], h[1], h[2], h[3], h[4]), acc, P);
    CongMod(Limbs5(h0, h1, h2, h3, h4), acc, P);
    h0, h1, h2, h3, h4 := Select(h0, h1, h2, h3, h4);
    var w0, w1, w2, w3 := Pack(h0, h1, h2, h3, h4);
    var m0, m1, m2, m3 := AddPad(w0, w1, w2, w3, pad[0], pad[1], pad[2], pad[3]);
    ModShift(acc, Words4(pad[0], pad[1], pad[2], pad[3]));
    mac := WriteWords(m0, m1, m2, m3);
  }

  lemma ModShift(a: int, b: int)
    ensures (a % R128 + b) % R128 == (a + b) % R128
  {
  }

  method WriteWords(m0: nat, m1: nat, m2: nat, m3: nat) returns (mac: seq<byte>)
    ensures |mac| == 16
    ensures Val(mac, 256) == Words4(m0 % 0x1_0000_0000, m1 % 0x1_0000_0000, m2 % 0x1_0000_0000, m3 % 0x1_0000_0000)
  {
    hide Val, Word4, U32To8, Words4;
    var a, b, c, d := U32To8(m0), U32To8(m1), U32To8(m2), U32To8(m3);
    mac := a + b + c + d;
    PadWords(mac);
  }

  lemma AbsorbStart(acc: nat, r: nat, m: seq<byte>, hi: nat)
    ensures Absorb(acc, r, m, hi, 0) == acc
  {
  }

  lemma AbsorbNext(acc: nat, r: nat, m: seq<byte>, hi: nat, j: nat)
    requires 0 < 16 * j <= |m|
    ensures (Absorb(acc, r, m, hi, j - 1) + Val(m[16 * j - 16..16 * j], 256) + hi) * r >= 0
    ensures Absorb(acc, r, m, hi, j)
         == ((Absorb(acc, r, m, hi, j - 1) + Val(m[16 * j - 16..16 * j], 256) + hi) * r) % P
  {
    hide Val;
    MulNonNeg(Absorb(acc, r, m, hi, j - 1) + Val(m[16 * j - 16..16 * j], 256) + hi, r);
  }

  lemma PadWords(k: seq<byte>)
    requires |k| == 16
    ensures Words4(Word4(k[0], k[1], k[2], k[3]), Word4(k[4], k[5], k[6], k[7]),
                   Word4(k[8], k[9], k[10], k[11]), Word4(k[12], k[13], k[14], k[15])) == Val(k, 256)
  {
    hide Val, Word4;
    SixteenBytes(k);
  }
}
