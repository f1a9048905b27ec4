/** Section 2.5 of RFC 8439 read directly: the tag as a polynomial in r, and the clamp of r
    byte by byte. */
module Poly1305Tag {
  import opened Arith
  import opened Bits
  import opened Limbs
  import opened Machine
  import opened NumberTheory
  import opened Poly1305
  import opened Poly1305Field

  /** How many blocks a message has, the last one perhaps short. */
  function BlockCount(msg: seq<byte>): (q: nat)
  {
    (|msg| + 15) / 16
  }

  /** Block i of a message as a number, with a one byte behind it. */
  ghost function Coefficient(msg: seq<byte>, i: nat): (c: nat)
    requires i < BlockCount(msg)
  {
    var end := if 16 * i + 16 <= |msg| then 16 * i + 16 else |msg|;
    Val(msg[16 * i..end], 256) + Pow(256, end - 16 * i)
  }

  /** The sum of the first n coefficients, coefficient i times r^(e - i). */
  ghost function Sum(msg: seq<byte>, r: nat, n: nat, e: nat): (s: nat)
    requires n <= BlockCount(msg) && n <= e
  {
    if n == 0 then 0
    else
      MulNonNeg(Coefficient(msg, n - 1), Pow(r, e - (n - 1)));
      Sum(msg, r, n - 1, e) + Coefficient(msg, n - 1) * Pow(r, e - (n - 1))
  }

  lemma {:induction false} SumTimes(msg: seq<byte>, r: nat, n: nat, e: nat)
    requires n <= BlockCount(msg) && n <= e
    ensures Sum(msg, r, n, e + 1) == r * Sum(msg, r, n, e)
  {
    hide Coefficient;
    if n != 0 {
      SumTimes(msg, r, n - 1, e);
      var c, p := Coefficient(msg, n - 1), Pow(r, e - (n - 1));
      assert Pow(r, e + 1 - (n - 1)) == r * p;
      Assoc(c, r, p);
      Assoc(r, c, p);
      Distrib(r, Sum(msg, r, n - 1, e), c * p);
    }
  }

  lemma SumNext(msg: seq<byte>, r: nat, n: nat)
    requires n < BlockCount(msg)
    ensures Sum(msg, r, n + 1, n + 1) == (Sum(msg, r, n, n) + Coefficient(msg, n)) * r
  {
    hide Coefficient;
    SumTimes(msg, r, n, n);
    var s, c := Sum(msg, r, n, n), Coefficient(msg, n);
    assert Pow(r, 1) == r * Pow(r, 0);
    Distrib(r, s, c);
  }

  /** The first n blocks. */
  function Front(msg: seq<byte>, n: nat): (s: seq<byte>)
    requires n <= BlockCount(msg)
  {
    if 16 * n <= |msg| then msg[..16 * n] else msg
  }

  lemma AccumulateNext(r: nat, msg: seq<byte>, n: nat)
    requires n < BlockCount(msg)
    ensures (Accumulate(0, r, Front(msg, n)) + Coefficient(msg, n)) * r >= 0
    ensures Accumulate(0, r, Front(msg, n + 1))
         == ((Accumulate(0, r, Front(msg, n)) + Coefficient(msg, n)) * r) % P
  {
    hide Accumulate, Val, Pow;
    var end := if 16 * n + 16 <= |msg| then 16 * n + 16 else |msg|;
    var block := msg[16 * n..end];
    assert Front(msg, n + 1) == Front(msg, n) + block;
    AccumulateConcat(0, r, Front(msg, n), block);
    AccumulateBlock(Accumulate(0, r, Front(msg, n)), r, block);
  }

  lemma {:induction false} AccumulateSum(r: nat, msg: seq<byte>, n: nat)
    requires n <= BlockCount(msg)
    ensures Cong(Accumulate(0, r, Front(msg, n)), Sum(msg, r, n, n), P)
  {
    hide Accumulate, Sum, Coefficient, Front, Cong;
    if n == 0 {
      assert Front(msg, 0) == [] by { FrontNone(msg); }
      AccumulateEmpty(0, r);
      SumNone(msg, r);
      CongRefl(0, P);
    } else {
      AccumulateSum(r, msg, n - 1);
      AccumulateNext(r, msg, n - 1);
      SumNext(msg, r, n - 1);
      StepCong(Accumulate(0, r, Front(msg, n - 1)), Sum(msg, r, n - 1, n - 1), Coefficient(msg, n - 1), r, P);
    }
  }

  lemma StepCong(a: int, s: int, c: int, r: int, p: int)
    requires p > 0 && Cong(a, s, p)
    ensures Cong(((a + c) * r) % p, (s + c) * r, p)
  {
    hide Cong;
    CongRefl(c, p);
    CongAdd(a, s, c, c, p);
    CongScale(a + c, s + c, r, p);
    CongRemainder((a + c) * r, p);
    CongTrans(((a + c) * r) % p, (a + c) * r, (s + c) * r, p);
  }

  lemma FrontNone(msg: seq<byte>)
    ensures Front(msg, 0) == []
  {
  }

  lemma SumNone(msg: seq<byte>, r: nat)
    ensures Sum(msg, r, 0, 0) == 0
  {
  }

  /** The accumulator is the polynomial whose coefficients are the blocks, the first with
      the highest power, at r. */
  lemma AccumulatePolynomial(r: nat, msg: seq<byte>)
    ensures Accumulate(0, r, msg) == Sum(msg, r, BlockCount(msg), BlockCount(msg)) % P
  {
    hide Accumulate, Sum;
    var q := BlockCount(msg);
    AccumulateSum(r, msg, q);
    assert Front(msg, q) == msg;
    AccumulateBelow(0, r, msg);
    CongSym(Accumulate(0, r, msg), Sum(msg, r, q, q), P);
    CongMod(Sum(msg, r, q, q), Accumulate(0, r, msg), P);
  }

  /** The clamp on bytes: the top four bits of bytes 3, 7, 11 and 15 and the low two bits
      of bytes 4, 8 and 12 are cleared. */
  function ClampByte(i: nat, b: byte): (c: byte)
  {
    if i in {3, 7, 11, 15} then b % 16 else if i in {4, 8, 12} then b - b % 4 else b
  }

  function MaskByte(i: nat): (b: byte)
  {
    if i in {3, 7, 11, 15} then 0x0F else if i in {4, 8, 12} then 0xFC else 0xFF
  }

  lemma ClampMask(i: nat, b: byte)
    ensures And(b, MaskByte(i)) == ClampByte(i, b)
  {
    hide And;
    assert Pow2(2) == 4 && Pow2(4) == 16;
    Pow2Literals();
    AndLowMask(b, 4);
    AndLowMask(b, 8);
    AndHighMask(b, 2, 8);
  }

  /** `&` works byte by byte. */
  lemma {:induction false} AndVal(k: seq<byte>, m: seq<byte>, c: seq<byte>)
    requires |k| == |m| == |c| && forall i :: 0 <= i < |k| ==> And(k[i], m[i]) == c[i]
    ensures And(Val(k, 256), Val(m, 256)) == Val(c, 256)
  {
    hide And, Pow2;
    if |k| == 0 {
      AndZero(0);
    } else {
      AndVal(k[1..], m[1..], c[1..]);
      Pow2Literals();
      AndSplit(k[0], Val(k[1..], 256), m[0], Val(m[1..], 256), 8);
    }
  }

  lemma MaskValue()
    ensures Val(seq(16, i requires 0 <= i < 16 => MaskByte(i)), 256) == 0x0FFF_FFFC_0FFF_FFFC_0FFF_FFFC_0FFF_FFFF
  {
    hide Val, Pow;
    var w: seq<byte> := [0xFC, 0xFF, 0xFF, 0x0F];
    var v: seq<byte> := [0xFF, 0xFF, 0xFF, 0x0F];
    assert seq(16, i requires 0 <= i < 16 => MaskByte(i)) == v + (w + (w + w));
    assert Val(w, 256) == 0x0FFF_FFFC && Val(v, 256) == 0x0FFF_FFFF && Pow(256, 4) == 0x1_0000_0000 by {
      WordValue(w);
      WordValue(v);
    }
    ValConcat(w, w, 256);
    ValConcat(w, w + w, 256);
    ValConcat(v, w + (w + w), 256);
  }

  lemma WordValue(w: seq<byte>)
    requires |w| == 4
    ensures Val(w, 256) == w[0] + 0x100 * (w[1] as int + 0x100 * (w[2] as int + 0x100 * w[3] as int))
    ensures Pow(256, 4) == 0x1_0000_0000
  {
    var x, y, z := w[1..], w[2..], w[3..];
    assert x[1..] == y && y[1..] == z && z[1..] == [];
    assert Val(z, 256) == w[3] + 256 * Val([], 256);
    assert Val(y, 256) == w[2] + 256 * Val(z, 256);
    assert Val(x, 256) == w[1] + 256 * Val(y, 256);
    assert Pow(256, 2) == 0x1_0000;
  }

  lemma ClampBytes(key: seq<byte>)
    requires |key| == 16
    ensures Clamp(Val(key, 256)) == Val(seq(16, i requires 0 <= i < 16 => ClampByte(i, key[i])), 256)
  {
    hide And, Val, ClampByte, MaskByte;
    var m := seq(16, i requires 0 <= i < 16 => MaskByte(i));
    var c := seq(16, i requires 0 <= i < 16 => ClampByte(i, key[i]));
    forall i | 0 <= i < 16 ensures And(key[i], m[i]) == c[i] {
      ClampMask(i, key[i]);
    }
    AndVal(key, m, c);
    MaskValue();
  }
}
