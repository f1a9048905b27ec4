/** Bytes of a buffer as numbers, and runs of them most significant first. */
module Endian {
  import opened Bits

  /** The number that binary digits stand for, the first one least significant. */
  function FromBits(s: seq<bool>): (n: nat)
  {
    if s == [] then 0 else (if s[0] then 1 else 0) + 2 * FromBits(s[1..])
  }

  function ToBits(n: nat, k: nat): (s: seq<bool>)
    ensures |s| == k
  {
    if k == 0 then [] else [n % 2 == 1] + ToBits(n / 2, k - 1)
  }

  lemma {:induction false} FromToBits(n: nat, k: nat)
    requires n < Pow2(k)
    ensures FromBits(ToBits(n, k)) == n
    decreases k
  {
    if k != 0 { FromToBits(n / 2, k - 1); }
  }

  lemma {:induction false} FromBitsBound(s: seq<bool>)
    ensures FromBits(s) < Pow2(|s|)
  {
    if s != [] { FromBitsBound(s[1..]); }
  }

  lemma {:induction false} XorBits(s: seq<bool>, t: seq<bool>, u: seq<bool>)
    requires |s| == |t| == |u| && forall i :: 0 <= i < |s| ==> u[i] == (s[i] != t[i])
    ensures FromBits(u) == Xor(FromBits(s), FromBits(t))
    decreases |s|
  {
    hide Xor;
    if s == [] {
      XorNone();
    } else {
      XorBits(s[1..], t[1..], u[1..]);
      XorLow(s[0], FromBits(s[1..]), t[0], FromBits(t[1..]));
    }
  }

  lemma XorLow(b: bool, u: nat, c: bool, v: nat)
    ensures Xor((if b then 1 else 0) + 2 * u, (if c then 1 else 0) + 2 * v) == (if b != c then 1 else 0) + 2 * Xor(u, v)
  {
    hide Xor;
    XorBit(if b then 1 else 0, u, if c then 1 else 0, v);
  }

  /** The bits of a byte, the lowest first. */
  function Mask(i: nat): (m: bv8)
    requires i < 8
  {
    if i == 0 then 1 else if i == 1 then 2 else if i == 2 then 4 else if i == 3 then 8
    else if i == 4 then 16 else if i == 5 then 32 else if i == 6 then 64 else 128
  }

  predicate BitAt(b: bv8, i: nat)
    requires i < 8
  {
    b & Mask(i) != 0
  }

  function BitsOf(b: bv8): (s: seq<bool>)
    ensures |s| == 8
  {
    seq(8, i requires 0 <= i < 8 => BitAt(b, i))
  }

  function Pick(b: bool, m: bv8): (r: bv8) { if b then m else 0 }

  function OfBits(s: seq<bool>): (b: bv8)
    requires |s| == 8
  {
    Pick(s[0], 1) | Pick(s[1], 2) | Pick(s[2], 4) | Pick(s[3], 8)
    | Pick(s[4], 16) | Pick(s[5], 32) | Pick(s[6], 64) | Pick(s[7], 128)
  }

  lemma PickBits(b0: bool, b1: bool, b2: bool, b3: bool, b4: bool, b5: bool, b6: bool, b7: bool)
    ensures var b := Pick(b0, 1) | Pick(b1, 2) | Pick(b2, 4) | Pick(b3, 8)
                     | Pick(b4, 16) | Pick(b5, 32) | Pick(b6, 64) | Pick(b7, 128);
            && b0 == (b & 1 != 0) && b1 == (b & 2 != 0) && b2 == (b & 4 != 0) && b3 == (b & 8 != 0)
            && b4 == (b & 16 != 0) && b5 == (b & 32 != 0) && b6 == (b & 64 != 0) && b7 == (b & 128 != 0)
  {
  }

  lemma MaskCases(b: bv8, i: nat)
    requires i < 8
    ensures BitAt(b, i) == if i == 0 then b & 1 != 0 else if i == 1 then b & 2 != 0
                           else if i == 2 then b & 4 != 0 else if i == 3 then b & 8 != 0
                           else if i == 4 then b & 16 != 0 else if i == 5 then b & 32 != 0
                           else if i == 6 then b & 64 != 0 else b & 128 != 0
  {
  }

  lemma BitBack(s: seq<bool>, i: nat)
    requires |s| == 8 && i < 8
    ensures BitAt(OfBits(s), i) == s[i]
  {
    hide Pick, BitAt;
    PickBits(s[0], s[1], s[2], s[3], s[4], s[5], s[6], s[7]);
    MaskCases(OfBits(s), i);
  }

  lemma BitsBack(s: seq<bool>)
    requires |s| == 8
    ensures BitsOf(OfBits(s)) == s
  {
    hide BitAt, OfBits;
    forall i | 0 <= i < 8 ensures BitsOf(OfBits(s))[i] == s[i] { BitBack(s, i); }
  }

  lemma MaskXor(x: bv8, y: bv8, m: bv8)
    requires m in {1, 2, 4, 8, 16, 32, 64, 128}
    ensures ((x ^ y) & m != 0) <==> ((x & m != 0) != (y & m != 0))
  {
  }

  lemma BitXor(x: bv8, y: bv8, i: nat)
    requires i < 8
    ensures BitAt(x ^ y, i) <==> (BitAt(x, i) != BitAt(y, i))
  {
    hide Mask;
    var m := Mask(i);
    MaskIn(i);
    MaskXor(x, y, m);
  }

  lemma MaskIn(i: nat)
    requires i < 8
    ensures Mask(i) in {1, 2, 4, 8, 16, 32, 64, 128}
  {
  }

  lemma BitsXor(x: bv8, y: bv8)
    ensures forall i :: 0 <= i < 8 ==> BitsOf(x ^ y)[i] == (BitsOf(x)[i] != BitsOf(y)[i])
  {
    hide BitAt;
    forall i | 0 <= i < 8 ensures BitsOf(x ^ y)[i] == (BitsOf(x)[i] != BitsOf(y)[i]) { BitXor(x, y, i); }
  }

  function ByteVal(b: bv8): (n: nat)
  {
    FromBits(BitsOf(b))
  }

  function ToByte(n: nat): (b: bv8)
  {
    OfBits(ToBits(n, 8))
  }

  lemma ByteBack(n: nat)
    requires n < 256
    ensures ByteVal(ToByte(n)) == n
  {
    hide BitsOf, OfBits, FromBits, ToBits;
    Pow2Literals();
    BitsBack(ToBits(n, 8));
    FromToBits(n, 8);
  }

  lemma ByteBound(b: bv8)
    ensures ByteVal(b) < 256
  {
    hide BitsOf, FromBits;
    Pow2Literals();
    FromBitsBound(BitsOf(b));
  }

  lemma XorByteVal(x: bv8, y: bv8)
    ensures ByteVal(x ^ y) == Xor(ByteVal(x), ByteVal(y))
  {
    hide BitsOf, FromBits, Xor;
    BitsXor(x, y);
    XorBits(BitsOf(x), BitsOf(y), BitsOf(x ^ y));
  }

  /** The number that bytes stand for, the last one least significant. */
  function BigVal(s: seq<bv8>): (n: nat)
  {
    if s == [] then 0 else 256 * BigVal(s[..|s| - 1]) + ByteVal(s[|s| - 1])
  }

  lemma {:induction false} BigXor(s: seq<bv8>, t: seq<bv8>, u: seq<bv8>)
    requires |s| == |t| == |u| && forall i :: 0 <= i < |s| ==> u[i] == s[i] ^ t[i]
    ensures BigVal(u) == Xor(BigVal(s), BigVal(t))
    decreases |s|
  {
    hide Xor, ByteVal;
    if s == [] {
      XorNone();
    } else {
      var n := |s| - 1;
      BigXor(s[..n], t[..n], u[..n]);
      assert u[n] == s[n] ^ t[n];
      BigXorLast(s[n], t[n], BigVal(s[..n]), BigVal(t[..n]));
    }
  }

  lemma BigXorLast(x: bv8, y: bv8, X: nat, Y: nat)
    ensures 256 * Xor(X, Y) + ByteVal(x ^ y) == Xor(256 * X + ByteVal(x), 256 * Y + ByteVal(y))
  {
    hide Xor, ByteVal;
    XorByteVal(x, y);
    ByteBound(x);
    ByteBound(y);
    Pow2Literals();
    XorSplit(ByteVal(x), X, ByteVal(y), Y, 8);
  }
}
