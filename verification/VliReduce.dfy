/** crypto/ecc.c: vli_mmod_fast for secp256r1, the fast reduction of Appendix
    D.2.3 of FIPS 186-4, on four and eight 64-bit digits. */
module VliReduce {
  import opened Arith
  import opened Bits
  import opened Limbs
  import opened NumberTheory
  import opened Vli
  import opened Machine

  const W: int := 0x1_0000_0000
  const R: int := 0x1_0000_0000_0000_0000_0000_0000_0000_0000_0000_0000_0000_0000_0000_0000_0000_0000

  /** The field prime of secp256r1. */
  const P: int := 0xFFFF_FFFF_0000_0001_0000_0000_0000_0000_0000_0000_FFFF_FFFF_FFFF_FFFF_FFFF_FFFF

  /** g_curve_p */
  const CURVE_P: seq<u64> :=
    [0xFFFF_FFFF_FFFF_FFFF, 0x0000_0000_FFFF_FFFF, 0x0000_0000_0000_0000, 0xFFFF_FFFF_0000_0001]

  function Lo(x: u64): (w: u32) { x % W }
  function Hi(x: u64): (w: u32) { x / W }

  /** The C expressions that pick and place 32-bit halves of a digit. */
  function ShiftLeft32(x: u64): (r: u64)
    ensures r == Lo(x) * W
  {
    assert x * W == BASE * Hi(x) + Lo(x) * W;
    DivModUnique(x * W, BASE, Hi(x), Lo(x) * W);
    (x * W) % BASE
  }

  function MaskLow(x: u64): (r: u64)
    ensures r == Lo(x)
  {
    MaskValues(x);
    And(x, 0xFFFF_FFFF)
  }

  function MaskHigh(x: u64): (r: u64)
    ensures r == Hi(x) * W
  {
    MaskValues(x);
    And(x, 0xFFFF_FFFF_0000_0000)
  }

  lemma MaskValues(x: u64)
    ensures And(x, 0xFFFF_FFFF) == Lo(x)
    ensures And(x, 0xFFFF_FFFF_0000_0000) == Hi(x) * W
  {
    hide And, Pow2;
    Pow2Literals();
    AndLowMask(x, 32);
    AndHighMask(x, 32, 64);
    assert x % 0x1_0000_0000_0000_0000 == x;
  }

  /** `low | high` of a low and a high half. */
  function Join(low: u64, high: u64): (r: u64)
    requires low < W
    requires exists h: u32 :: high == h * W
    ensures r == low + high
  {
    Pow2Literals();
    var h: u32 :| high == h * W;
    assert high == h * Pow2(32);
    OrDisjoint(high, low, 32);
    Or(low, high)
  }

  /** The value of eight 32-bit words, least significant first. */
  function Words(w0: int, w1: int, w2: int, w3: int, w4: int, w5: int, w6: int, w7: int): (v: int)
  {
    w0 + W * w1 + 0x1_0000_0000_0000_0000 * w2 + 0x1_0000_0000_0000_0000_0000_0000 * w3
    + 0x1_0000_0000_0000_0000_0000_0000_0000_0000 * w4
    + 0x1_0000_0000_0000_0000_0000_0000_0000_0000_0000_0000 * w5
    + 0x1_0000_0000_0000_0000_0000_0000_0000_0000_0000_0000_0000_0000 * w6
    + 0x1_0000_0000_0000_0000_0000_0000_0000_0000_0000_0000_0000_0000_0000_0000 * w7
  }

  /** The signed sum of the nine terms of the reduction, over the high words
      c8..c15 of the product and its low half t. */
  function Terms(t: int, c8: int, c9: int, c10: int, c11: int, c12: int, c13: int, c14: int, c15: int): (v: int)
  {
    t + 2 * Words(0, 0, 0, c11, c12, c13, c14, c15) + 2 * Words(0, 0, 0, c12, c13, c14, c15, 0)
    + Words(c8, c9, c10, 0, 0, 0, c14, c15) + Words(c9, c10, c11, c13, c14, c15, c13, c8)
    - Words(c11, c12, c13, 0, 0, 0, c8, c10) - Words(c12, c13, c14, c15, 0, 0, c9, c11)
    - Words(c13, c14, c15, c8, c9, c10, 0, c12) - Words(c14, c15, 0, c9, c10, c11, 0, c13)
  }

  /** The terms are the product modulo P: the difference is an explicit multiple of P. */
  lemma TermsCongruent(t: int, c8: int, c9: int, c10: int, c11: int, c12: int, c13: int, c14: int, c15: int)
    ensures Cong(Terms(t, c8, c9, c10, c11, c12, c13, c14, c15),
                 t + R * Words(c8, c9, c10, c11, c12, c13, c14, c15), P)
  {
    var k := c8 + 0x1_0000_0001 * c9 + 0x1_0000_0001_0000_0000 * c10
           + 0x1_0000_0000_FFFF_FFFF_FFFF_FFFF * c11
           + 0x1_0000_0000_FFFF_FFFF_FFFF_FFFE_FFFF_FFFF * c12
           + 0x1_0000_0000_FFFF_FFFF_FFFF_FFFE_FFFF_FFFE_FFFF_FFFF * c13
           + 0x1_0000_0000_FFFF_FFFF_FFFF_FFFE_FFFF_FFFE_FFFF_FFFE_FFFF_FFFF * c14
           + 0x1_0000_0000_FFFF_FFFF_FFFF_FFFE_FFFF_FFFE_FFFF_FFFE_FFFF_FFFF_0000_0000 * c15;
    var a, b := Terms(t, c8, c9, c10, c11, c12, c13, c14, c15), t + R * Words(c8, c9, c10, c11, c12, c13, c14, c15);
    assert a - b == P * (-k);
    DividesIntro(P, a - b, -k);
  }

  lemma PowBase4()
    ensures Pow(BASE, 4) == R
  {
    assert Pow(BASE, 2) == BASE * BASE;
    PowAdd(BASE, 2, 2);
  }

  lemma FourDigits(S: seq<nat>)
    requires |S| == 4
    ensures Val(S, BASE) == S[0] + BASE * S[1] + 0x1_0000_0000_0000_0000_0000_0000_0000_0000 * S[2]
                          + 0x1_0000_0000_0000_0000_0000_0000_0000_0000_0000_0000_0000_0000 * S[3]
  {
    assert S == [S[0]] + ([S[1]] + ([S[2]] + ([S[3]] + [])));
    ValEmpty(BASE);
    ValCons(S[3], [], BASE);
    ValCons(S[2], [S[3]] + [], BASE);
    ValCons(S[1], [S[2]] + ([S[3]] + []), BASE);
    ValCons(S[0], [S[1]] + ([S[2]] + ([S[3]] + [])), BASE);
  }

  /** Four digits written as eight words. */
  lemma FourDigitsWords(a: array<u64>, off: nat, w0: int, w1: int, w2: int, w3: int, w4: int, w5: int, w6: int, w7: int)
    requires Slice(a, off, 4)
    requires a[off] == w0 + W * w1 && a[off + 1] == w2 + W * w3
    requires a[off + 2] == w4 + W * w5 && a[off + 3] == w6 + W * w7
    ensures V(a, off, 4) == Words(w0, w1, w2, w3, w4, w5, w6, w7)
  {
    hide Val;
    FourDigits(a[off..off + 4]);
  }

  /** `l_carry += vli_add(result, result, l_tmp)` */
  method AddTerm(result: array<u64>, tmp: array<u64>, carry: int) returns (carry': int)
    requires Slice(result, 0, 4) && Slice(tmp, 0, 4) && result != tmp
    modifies result
    ensures V(result, 0, 4) + carry' * R == old(V(result, 0, 4)) + carry * R + V(tmp, 0, 4)
    ensures SameOutside(result, 0, 4)
  {
    hide V, Pow;
    PowBase4();
    var c := Add(4, result, 0, result, 0, tmp, 0);
    carry' := carry + c;
  }

  /** `l_carry -= vli_sub(result, result, l_tmp)` */
  method SubTerm(result: array<u64>, tmp: array<u64>, carry: int) returns (carry': int)
    requires Slice(result, 0, 4) && Slice(tmp, 0, 4) && result != tmp
    modifies result
    ensures V(result, 0, 4) + carry' * R == old(V(result, 0, 4)) + carry * R - V(tmp, 0, 4)
    ensures SameOutside(result, 0, 4)
  {
    hide V, Pow;
    PowBase4();
    var b := Sub(4, result, 0, result, 0, tmp, 0);
    carry' := carry - b;
  }

  /** `l_carry += vli_lshift(l_tmp, l_tmp, 1); l_carry += vli_add(result, result, l_tmp)`;
      a zero low digit of l_tmp stays zero, which the next term relies on. */
  method AddTwice(result: array<u64>, tmp: array<u64>, carry: int) returns (carry': int)
    requires Slice(result, 0, 4) && Slice(tmp, 0, 4) && result != tmp
    requires tmp[0] == 0
    modifies result, tmp
    ensures V(result, 0, 4) + carry' * R == old(V(result, 0, 4)) + carry * R + 2 * old(V(tmp, 0, 4))
    ensures tmp[0] == 0
    ensures SameOutside(result, 0, 4)
  {
    ghost var x := V(tmp, 0, 4);
    LowDigitZero(tmp);
    assert Pow2(1) == 2;
    var c := Lshift(4, tmp, 0, tmp, 0, 1);
    LowDigitStaysZero(tmp, x, c);
    PowBase4();
    carry' := AddTerm(result, tmp, carry + c);
  }

  lemma LowDigitZero(tmp: array<u64>)
    requires Slice(tmp, 0, 4) && tmp[0] == 0
    ensures Divides(BASE, V(tmp, 0, 4))
  {
    ghost var S: seq<nat> := tmp[0..4];
    DividesIntro(BASE, V(tmp, 0, 4), Val(S[1..], BASE));
  }

  lemma LowDigitStaysZero(tmp: array<u64>, x: int, c: int)
    requires Slice(tmp, 0, 4)
    requires Divides(BASE, x)
    requires V(tmp, 0, 4) + c * Pow(BASE, 4) == x * 2
    ensures tmp[0] == 0
  {
    hide Pow;
    ghost var S: seq<nat> := tmp[0..4];
    var k :| x == BASE * k;
    PowBase4();
    var j := 2 * k - c * 0x1_0000_0000_0000_0000_0000_0000_0000_0000_0000_0000_0000_0000 - Val(S[1..], BASE);
    assert S[0] == BASE * j;
    MulAtLeast(BASE, j);
  }

  /** t, s1, s2: the low half and the doubled terms. */
  method DoubledTerms(result: array<u64>, product: array<u64>, tmp: array<u64>) returns (carry: int)
    requires result.Length == 4 && product.Length == 8 && tmp.Length == 4
    requires result != product && result != tmp && tmp != product
    modifies result, tmp
    ensures V(result, 0, 4) + carry * R == V(product, 0, 4)
         + 2 * Words(0, 0, 0, Hi(product[5]), Lo(product[6]), Hi(product[6]), Lo(product[7]), Hi(product[7]))
         + 2 * Words(0, 0, 0, Lo(product[6]), Hi(product[6]), Lo(product[7]), Hi(product[7]), 0)
  {
    hide V, Words, ShiftLeft32, MaskHigh, Join;
    Set(4, result, 0, product, 0);
    tmp[0] := 0;
    tmp[1] := MaskHigh(product[5]);
    tmp[2] := product[6];
    tmp[3] := product[7];
    FourDigitsWords(tmp, 0, 0, 0, 0, Hi(product[5]), Lo(product[6]), Hi(product[6]), Lo(product[7]), Hi(product[7]));
    carry := AddTwice(result, tmp, 0);
    tmp[1] := ShiftLeft32(product[6]);
    tmp[2] := Join(Hi(product[6]), ShiftLeft32(product[7]));
    tmp[3] := Hi(product[7]);
    FourDigitsWords(tmp, 0, 0, 0, 0, Lo(product[6]), Hi(product[6]), Lo(product[7]), Hi(product[7]), 0);
    carry := AddTwice(result, tmp, carry);
  }

  /** s3, s4 */
  method AddedTerms(result: array<u64>, product: array<u64>, tmp: array<u64>, carry: int) returns (carry': int)
    requires result.Length == 4 && product.Length == 8 && tmp.Length == 4
    requires result != product && result != tmp && tmp != product
    modifies result, tmp
    ensures V(result, 0, 4) + carry' * R == old(V(result, 0, 4)) + carry * R
         + Words(Lo(product[4]), Hi(product[4]), Lo(product[5]), 0, 0, 0, Lo(product[7]), Hi(product[7]))
         + Words(Hi(product[4]), Lo(product[5]), Hi(product[5]), Hi(product[6]),
                 Lo(product[7]), Hi(product[7]), Hi(product[6]), Lo(product[4]))
  {
    hide V, Words, ShiftLeft32, MaskHigh, MaskLow, Join;
    tmp[0] := product[4];
    tmp[1] := MaskLow(product[5]);
    tmp[2] := 0;
    tmp[3] := product[7];
    FourDigitsWords(tmp, 0, Lo(product[4]), Hi(product[4]), Lo(product[5]), 0, 0, 0, Lo(product[7]), Hi(product[7]));
    carry' := AddTerm(result, tmp, carry);
    tmp[0] := Join(Hi(product[4]), ShiftLeft32(product[5]));
    tmp[1] := Join(Hi(product[5]), MaskHigh(product[6]));
    tmp[2] := product[7];
    tmp[3] := Join(Hi(product[6]), ShiftLeft32(product[4]));
    FourDigitsWords(tmp, 0, Hi(product[4]), Lo(product[5]), Hi(product[5]), Hi(product[6]),
                    Lo(product[7]), Hi(product[7]), Hi(product[6]), Lo(product[4]));
    carry' := AddTerm(result, tmp, carry');
  }

  /** d1, d2 */
  method SubtractedTerms12(result: array<u64>, product: array<u64>, tmp: array<u64>, carry: int) returns (carry': int)
    requires result.Length == 4 && product.Length == 8 && tmp.Length == 4
    requires result != product && result != tmp && tmp != product
    modifies result, tmp
    ensures V(result, 0, 4) + carry' * R == old(V(result, 0, 4)) + carry * R
         - Words(Hi(product[5]), Lo(product[6]), Hi(product[6]), 0, 0, 0, Lo(product[4]), Lo(product[5]))
         - Words(Lo(product[6]), Hi(product[6]), Lo(product[7]), Hi(product[7]), 0, 0, Hi(product[4]), Hi(product[5]))
  {
    hide V, Words, ShiftLeft32, MaskHigh, MaskLow, Join;
    tmp[0] := Join(Hi(product[5]), ShiftLeft32(product[6]));
    tmp[1] := Hi(product[6]);
    tmp[2] := 0;
    tmp[3] := Join(MaskLow(product[4]), ShiftLeft32(product[5]));
    FourDigitsWords(tmp, 0, Hi(product[5]), Lo(product[6]), Hi(product[6]), 0, 0, 0, Lo(product[4]), Lo(product[5]));
    carry' := SubTerm(result, tmp, carry);
    tmp[0] := product[6];
    tmp[1] := product[7];
    tmp[2] := 0;
    tmp[3] := Join(Hi(product[4]), MaskHigh(product[5]));
    FourDigitsWords(tmp, 0, Lo(product[6]), Hi(product[6]), Lo(product[7]), Hi(product[7]),
                    0, 0, Hi(product[4]), Hi(product[5]));
    carry' := SubTerm(result, tmp, carry');
  }

  /** d3, d4 */
  method SubtractedTerms34(result: array<u64>, product: array<u64>, tmp: array<u64>, carry: int) returns (carry': int)
    requires result.Length == 4 && product.Length == 8 && tmp.Length == 4
    requires result != product && result != tmp && tmp != product
    modifies result, tmp
    ensures V(result, 0, 4) + carry' * R == old(V(result, 0, 4)) + carry * R
         - Words(Hi(product[6]), Lo(product[7]), Hi(product[7]), Lo(product[4]),
                 Hi(product[4]), Lo(product[5]), 0, Lo(product[6]))
         - Words(Lo(product[7]), Hi(product[7]), 0, Hi(product[4]), Lo(product[5]), Hi(product[5]), 0, Hi(product[6]))
  {
    hide V, Words, ShiftLeft32, MaskHigh, MaskLow, Join;
    tmp[0] := Join(Hi(product[6]), ShiftLeft32(product[7]));
    tmp[1] := Join(Hi(product[7]), ShiftLeft32(product[4]));
    tmp[2] := Join(Hi(product[4]), ShiftLeft32(product[5]));
    tmp[3] := ShiftLeft32(product[6]);
    FourDigitsWords(tmp, 0, Hi(product[6]), Lo(product[7]), Hi(product[7]), Lo(product[4]),
                    Hi(product[4]), Lo(product[5]), 0, Lo(product[6]));
    carry' := SubTerm(result, tmp, carry);
    tmp[0] := product[7];
    tmp[1] := MaskHigh(product[4]);
    tmp[2] := product[5];
    tmp[3] := MaskHigh(product[6]);
    FourDigitsWords(tmp, 0, Lo(product[7]), Hi(product[7]), 0, Hi(product[4]),
                    Lo(product[5]), Hi(product[5]), 0, Hi(product[6]));
    carry' := SubTerm(result, tmp, carry');
  }

  /** The two correction loops: add P until the signed total is no longer
      negative, or subtract it until the total is below P. */
  method Correct(result: array<u64>, curveP: array<u64>, carry: int)
    requires result.Length == 4 && curveP.Length == 4 && result != curveP
    requires V(curveP, 0, 4) == P
    modifies result
    ensures 0 <= V(result, 0, 4) < P
    ensures Cong(V(result, 0, 4), old(V(result, 0, 4)) + carry * R, P)
  {
    hide V, Cong, Pow;
    PowBase4();
    ghost var total := V(result, 0, 4) + carry * R;
    ghost var t := total;
    var c := carry;
    CongRefl(total, P);
    VBound(result, 0, 4);
    if c < 0 {
      while c < 0
        invariant V(curveP, 0, 4) == P
        invariant V(result, 0, 4) + c * R == t && Cong(t, total, P)
        invariant 0 <= V(result, 0, 4) < R
        invariant t < P
        decreases -t
      {
        c := AddTerm(result, curveP, c);
        CongStep(t, 1, total);
        t := t + P;
        VBound(result, 0, 4);
      }
    } else {
      var cmp := Cmp(4, curveP, 0, result, 0);
      while c != 0 || cmp != 1
        invariant V(curveP, 0, 4) == P
        invariant V(result, 0, 4) + c * R == t && Cong(t, total, P)
        invariant 0 <= V(result, 0, 4) < R
        invariant t >= 0 && cmp == SignOf(P - V(result, 0, 4))
        decreases t
      {
        c := SubTerm(result, curveP, c);
        CongStep(t, -1, total);
        t := t - P;
        VBound(result, 0, 4);
        cmp := Cmp(4, curveP, 0, result, 0);
      }
    }
  }

  lemma CongStep(t: int, k: int, total: int)
    requires Cong(t, total, P)
    ensures Cong(t + P * k, total, P)
  {
    CongShift(t, k, P);
    CongTrans(t + P * k, t, total, P);
  }

  /** vli_mmod_fast: result = product % g_curve_p. */
  method MmodFast(result: array<u64>, product: array<u64>, curveP: array<u64>)
    requires result.Length == 4 && product.Length == 8 && curveP.Length == 4
    requires result != product && result != curveP
    requires curveP[..] == CURVE_P
    modifies result
    ensures V(result, 0, 4) == V(product, 0, 8) % P
  {
    hide V, Words, Terms, Cong;
    var tmp := new u64[4];
    CurveValue(curveP);
    ghost var c8, c9, c10, c11 := Lo(product[4]), Hi(product[4]), Lo(product[5]), Hi(product[5]);
    ghost var c12, c13, c14, c15 := Lo(product[6]), Hi(product[6]), Lo(product[7]), Hi(product[7]);
    ghost var t := V(product, 0, 4);
    var carry := DoubledTerms(result, product, tmp);
    carry := AddedTerms(result, product, tmp, carry);
    carry := SubtractedTerms12(result, product, tmp, carry);
    carry := SubtractedTerms34(result, product, tmp, carry);
    TermsSum(t, c8, c9, c10, c11, c12, c13, c14, c15);
    TermsCongruent(t, c8, c9, c10, c11, c12, c13, c14, c15);
    Correct(result, curveP, carry);
    ProductWords(product);
    CongTrans(V(result, 0, 4), Terms(t, c8, c9, c10, c11, c12, c13, c14, c15), V(product, 0, 8), P);
    CongSym(V(result, 0, 4), V(product, 0, 8), P);
    CongMod(V(product, 0, 8), V(result, 0, 4), P);
  }

  lemma TermsSum(t: int, c8: int, c9: int, c10: int, c11: int, c12: int, c13: int, c14: int, c15: int)
    ensures Terms(t, c8, c9, c10, c11, c12, c13, c14, c15) ==
      t + 2 * Words(0, 0, 0, c11, c12, c13, c14, c15) + 2 * Words(0, 0, 0, c12, c13, c14, c15, 0)
      + Words(c8, c9, c10, 0, 0, 0, c14, c15) + Words(c9, c10, c11, c13, c14, c15, c13, c8)
      - Words(c11, c12, c13, 0, 0, 0, c8, c10) - Words(c12, c13, c14, c15, 0, 0, c9, c11)
      - Words(c13, c14, c15, c8, c9, c10, 0, c12) - Words(c14, c15, 0, c9, c10, c11, 0, c13)
  {
  }

  lemma CurveValue(curveP: array<u64>)
    requires curveP.Length == 4 && curveP[..] == CURVE_P
    ensures V(curveP, 0, 4) == P
  {
    hide Val;
    FourDigits(CURVE_P);
    assert curveP[0..4] == CURVE_P;
  }

  lemma ProductWords(product: array<u64>)
    requires product.Length == 8
    ensures V(product, 0, 8) == V(product, 0, 4)
         + R * Words(Lo(product[4]), Hi(product[4]), Lo(product[5]), Hi(product[5]),
                     Lo(product[6]), Hi(product[6]), Lo(product[7]), Hi(product[7]))
  {
    hide Val, Words, Pow;
    ghost var S: seq<nat> := product[0..8];
    ValSplit(S, 4, BASE);
    PowBase4();
    assert S[..4] == product[0..4] && S[4..] == product[4..8];
    FourDigitsWords(product, 4, Lo(product[4]), Hi(product[4]), Lo(product[5]), Hi(product[5]),
                    Lo(product[6]), Hi(product[6]), Lo(product[7]), Hi(product[7]));
  }
}
