/** crypto/ecc.c: vli_modmult, the shift-and-subtract remainder of a
    double-length product, worked on its low and high halves. */
module VliModMult {
  import opened Arith
  import opened Bits
  import opened Limbs
  import opened NumberTheory
  import opened Vli
  import opened VliProduct
  import opened Machine

  /** The loop of vli_modmult, k bits before its end: mm is mod << k and the
      running product is below 2 * mm; after the last step it is reduced. */
  ghost predicate Running(x: nat, m: nat, k: int, p: nat, mm: nat)
  {
    && m > 0
    && Cong(p, x, m)
    && (if k >= 0 then mm == m * Pow2(k) && p < 2 * mm else k == -1 && mm == m / 2 && p < m)
  }

  lemma RunningStart(x: nat, m: nat, pb: nat, mb: nat)
    requires BitLength(x, pb) && BitLength(m, mb) && m > 0 && mb <= pb
    ensures Running(x, m, pb - mb, x, m * Pow2(pb - mb))
  {
    assert mb > 0 by { assert Pow2(0) == 1; }
    CongRefl(x, m);
    Pow2Add(mb - 1, pb - mb);
    MulLe(Pow2(pb - mb), Pow2(mb - 1), m);
    assert (mb - 1) + (pb - mb) == pb - 1;
    assert Pow2(pb) == 2 * Pow2(pb - 1);
  }

  lemma RunningStep(x: nat, m: nat, k: int, p: nat, mm: nat, p': nat)
    requires Running(x, m, k, p, mm) && k >= 0
    requires p' == if mm <= p then p - mm else p
    ensures Running(x, m, k - 1, p', mm / 2)
  {
    var q: int := Pow2(k);
    CongShift(p, -q, m);
    CongTrans(p + m * -q, p, x, m);
    assert m * -q + mm == 0;
    if k > 0 {
      Assoc(m, 2, Pow2(k - 1));
      assert mm == 2 * (m * Pow2(k - 1));
    } else {
      assert Pow2(0) == 1;
    }
  }

  /** The index of the last digit that the first shift of mod writes, when the
      shift is `shift` bits. */
  function TopIndexWritten(n: nat, shift: nat): (i: nat)
    requires n > 0
  {
    if shift % 64 != 0 then shift / 64 + n else shift / 64 + n - 1
  }

  /** The shift stays inside l_modmultiple exactly when it is at most 64 * n bits. */
  lemma ShiftInBounds(n: nat, shift: nat)
    requires n > 0
    ensures TopIndexWritten(n, shift) < 2 * n <==> shift <= 64 * n
  {
    assert shift == 64 * (shift / 64) + shift % 64;
  }

  /** Operands below mod keep the shift inside. */
  lemma ReducedOperandsFit(n: nat, l: nat, r: nat, m: nat)
    requires l < m && r < m && m < Pow(BASE, n)
    ensures BitCount(l * r) <= BitCount(m) + 64 * n
  {
    hide Pow, Pow2, BitCount;
    var mb := BitCount(m);
    BitCountIsBitLength(m);
    ProductBound(l, r, Pow2(mb));
    Pow2Add(mb, mb);
    BitCountBelow(l * r, mb + mb);
    PowBase(n);
    BitCountBelow(m, 64 * n);
  }

  /** So does a modulus with its top bit set, whatever the operands. */
  lemma TopBitModulusFits(n: nat, l: nat, r: nat, m: nat)
    requires n > 0
    requires l < Pow(BASE, n) && r < Pow(BASE, n)
    requires Pow2(64 * n - 1) <= m
    ensures BitCount(l * r) <= BitCount(m) + 64 * n
  {
    hide Pow, Pow2, BitCount;
    ProductBound(l, r, Pow(BASE, n));
    PowBase(n);
    Pow2Add(64 * n, 64 * n);
    BitCountIsBitLength(m);
    BitCountBelow(l * r, 64 * n + 64 * n);
    if BitCount(m) < 64 * n { Pow2Monotone(BitCount(m), 64 * n - 1); }
  }

  lemma BitCountBelow(v: nat, b: nat)
    requires v < Pow2(b)
    ensures BitCount(v) <= b
  {
    hide BitCount;
    BitCountIsBitLength(v);
    if BitCount(v) > b { Pow2Monotone(b, BitCount(v) - 1); }
  }

  /** Full-width operands and modulus 1 on two digits: the shift would write
      digit 5 of an array of four, so the condition on the bit counts is needed. */
  lemma ShiftOutOfBoundsExample()
    ensures var x := (Pow2(128) - 1) * (Pow2(128) - 1);
            !(BitCount(x) <= BitCount(1) + 64 * 2) && TopIndexWritten(2, BitCount(x) - BitCount(1)) == 5
  {
    hide Pow2, BitCount;
    var x := (Pow2(128) - 1) * (Pow2(128) - 1);
    WidePowers();
    SquareBits(Pow2(128), Pow2(127));
    BitCountIsBitLength(x);
    BitLengthUnique(x, BitCount(x), 256);
  }

  lemma WidePowers()
    ensures Pow2(128) == 2 * Pow2(127) && Pow2(127) >= 8
    ensures Pow2(255) == Pow2(128) * Pow2(127)
    ensures Pow2(256) == Pow2(128) * Pow2(128)
    ensures BitCount(1) == 1
  {
    Pow2Add(128, 127);
    Pow2Add(128, 128);
    Pow2Monotone(3, 127);
    assert Pow2(3) == 8;
    assert BitCount(0) == 0;
  }

  lemma SquareBits(p: nat, h: nat)
    requires p == 2 * h && h >= 8
    ensures p * h <= (p - 1) * (p - 1) < p * p
  {
    DistribSub(p - 1, p, 1);
    DistribSub(p, p, 1);
    Distrib(p, h, h);
    MulLe(p, 8, h);
  }

  /** An order on halves, high first, is the order of the whole. */
  lemma HalvesOrder(lo: nat, hi: nat, lo': nat, hi': nat, b: nat)
    requires lo < b && lo' < b
    ensures hi < hi' ==> lo + b * hi < lo' + b * hi'
    ensures hi == hi' ==> (lo + b * hi <= lo' + b * hi' <==> lo <= lo')
  {
    if hi < hi' {
      MulLe(b, hi + 1, hi');
      Distrib(b, hi, 1);
    }
  }

  lemma SplitBorrow(lo: nat, pl: nat, ml: nat, ph: nat, mh: nat, borrow: nat, b: nat)
    requires lo < b && ml < b && pl < b && borrow <= 1
    requires lo == pl - ml + borrow * b
    requires ml + b * mh <= pl + b * ph
    ensures ph - borrow - mh >= 0
    ensures lo + b * (ph - borrow - mh) == (pl + b * ph) - (ml + b * mh)
  {
    DistribSub(b, ph, borrow);
    DistribSub(b, ph - borrow, mh);
    MulAtLeast(b, ph - borrow - mh);
  }

  /** `if (l_modmultiple <= l_product) l_product -= l_modmultiple`, half by half;
      `one` is the digit array holding 1 that the borrow subtracts. */
  method SubtractMultiple(n: nat, product: array<u64>, mm: array<u64>, one: array<u64>)
    requires n > 0 && product.Length == 2 * n && mm.Length == 2 * n && one.Length == n
    requires product != mm && product != one
    requires V(one, 0, n) == 1
    modifies product
    ensures V(product, 0, 2 * n) == if V(mm, 0, 2 * n) <= old(V(product, 0, 2 * n))
                                    then old(V(product, 0, 2 * n)) - V(mm, 0, 2 * n)
                                    else old(V(product, 0, 2 * n))
  {
    hide V, Pow;
    ghost var b := Pow(BASE, n);
    ghost var pl, ph, ml, mh := V(product, 0, n), V(product, n, n), V(mm, 0, n), V(mm, n, n);
    Halves(product, n);
    Halves(mm, n);
    VBound(product, 0, n);
    VBound(mm, 0, n);
    HalvesOrder(ml, mh, pl, ph, b);
    HalvesOrder(pl, ph, ml, mh, b);
    var cmp := Cmp(n, mm, n, product, n);
    var cmpLow := Cmp(n, mm, 0, product, 0);
    if cmp < 0 || (cmp == 0 && cmpLow <= 0) {
      SubtractHalves(n, product, mm, one);
    }
  }

  method SubtractHalves(n: nat, product: array<u64>, mm: array<u64>, one: array<u64>)
    requires n > 0 && product.Length == 2 * n && mm.Length == 2 * n && one.Length == n
    requires product != mm && product != one
    requires V(one, 0, n) == 1
    requires V(mm, 0, 2 * n) <= V(product, 0, 2 * n)
    modifies product
    ensures V(product, 0, 2 * n) == old(V(product, 0, 2 * n)) - V(mm, 0, 2 * n)
  {
    hide V, Pow, SameOutside;
    ghost var b := Pow(BASE, n);
    ghost var pl, ph, ml, mh := V(product, 0, n), V(product, n, n), V(mm, 0, n), V(mm, n, n);
    Halves(product, n);
    Halves(mm, n);
    VBound(product, 0, n);
    VBound(product, n, n);
    VBound(mm, 0, n);
    var borrow := SubLow(n, product, mm);
    ghost var lo := V(product, 0, n);
    VBound(product, 0, n);
    SplitBorrow(lo, pl, ml, ph, mh, borrow, b);
    if borrow != 0 {
      var b1 := SubHigh(n, product, one, 0);
      VBound(product, n, n);
      CarryFixed(V(product, n, n), -b1, b, ph - 1);
    }
    var b2 := SubHigh(n, product, mm, n);
    VBound(product, n, n);
    CarryFixed(V(product, n, n), -b2, b, ph - borrow - mh);
    Halves(product, n);
  }

  /** vli_sub and vli_rshift1 on one half of a double-length array leave the other half alone. */
  method SubLow(n: nat, a: array<u64>, b: array<u64>) returns (borrow: u64)
    requires a.Length == 2 * n && Slice(b, 0, n) && a != b
    modifies a
    ensures borrow <= 1
    ensures V(a, 0, n) == old(V(a, 0, n)) - V(b, 0, n) + borrow * Pow(BASE, n)
    ensures V(a, n, n) == old(V(a, n, n))
  {
    hide Val, Pow;
    borrow := Sub(n, a, 0, a, 0, b, 0);
    assert a[n..n + n] == old(a[n..n + n]);
  }

  method SubHigh(n: nat, a: array<u64>, b: array<u64>, bo: nat) returns (borrow: u64)
    requires a.Length == 2 * n && Slice(b, bo, n) && a != b
    modifies a
    ensures borrow <= 1
    ensures V(a, n, n) == old(V(a, n, n)) - V(b, bo, n) + borrow * Pow(BASE, n)
    ensures V(a, 0, n) == old(V(a, 0, n))
  {
    hide Val, Pow;
    borrow := Sub(n, a, n, a, n, b, bo);
    assert a[0..n] == old(a[0..n]);
  }

  method ShiftHigh(n: nat, a: array<u64>)
    requires a.Length == 2 * n
    modifies a
    ensures V(a, n, n) == old(V(a, n, n)) / 2
    ensures V(a, 0, n) == old(V(a, 0, n))
  {
    hide Val, Pow;
    Rshift1(n, a, n);
    assert a[0..n] == old(a[0..n]);
  }

  method ShiftLow(n: nat, a: array<u64>)
    requires n > 0 && a.Length == 2 * n
    modifies a
    ensures V(a, 0, n) == old(V(a, 0, n)) / 2
    ensures a[n - 1] < TOP_BIT
    ensures V(a, n, n) == old(V(a, n, n))
  {
    hide Val, Pow;
    Rshift1(n, a, 0);
    assert a[n..n + n] == old(a[n..n + n]);
  }

  method CarryLow(n: nat, a: array<u64>, carry: u64)
    requires n > 0 && a.Length == 2 * n
    requires a[n - 1] < TOP_BIT && (carry == 0 || carry == TOP_BIT)
    modifies a
    ensures V(a, 0, n) == old(V(a, 0, n)) + Bit63(carry) * (TOP_BIT * Pow(BASE, n - 1))
    ensures V(a, n, n) == old(V(a, n, n))
  {
    hide Val, Pow;
    OrTopBit(n, a, carry);
    assert a[n..n + n] == old(a[n..n + n]);
  }

  lemma HalvesShift(ml: nat, mh: nat, h: nat)
    ensures (ml + (2 * h) * mh) / 2 == (ml / 2 + (mh % 2) * h) + (2 * h) * (mh / 2)
  {
    var q, r := mh / 2, mh % 2;
    assert mh == 2 * q + r;
    Distrib(2 * h, 2 * q, r);
    Assoc(2 * h, 2, q);
    Assoc(2, h, r);
    assert (2 * h) * mh == 2 * ((2 * h) * q + r * h);
  }

  /** Shift l_modmultiple right by one bit across its halves. */
  method ShiftMultiple(n: nat, mm: array<u64>)
    requires n > 0 && mm.Length == 2 * n
    modifies mm
    ensures V(mm, 0, 2 * n) == old(V(mm, 0, 2 * n)) / 2
  {
    hide V, Pow, SameOutside;
    ghost var h := TOP_BIT * Pow(BASE, n - 1);
    HalfBase(n);
    ghost var ml, mh := V(mm, 0, n), V(mm, n, n);
    Halves(mm, n);
    LowBitOf(mm, n, n);
    HalvesShift(ml, mh, h);
    var carry: u64 := if mm[n] % 2 == 0 then 0 else TOP_BIT;
    ShiftHigh(n, mm);
    ShiftLow(n, mm);
    CarryLow(n, mm, carry);
    Halves(mm, n);
  }

  lemma LowBitOf(a: array<u64>, off: nat, n: nat)
    requires n > 0 && Slice(a, off, n)
    ensures V(a, off, n) % 2 == a[off] % 2
  {
    LowBit(a[off..off + n]);
  }

  /** The bit count of the double-length product, high half first. */
  method ProductBits(n: nat, product: array<u64>) returns (bits: nat)
    requires n > 0 && product.Length == 2 * n
    ensures BitLength(V(product, 0, 2 * n), bits)
  {
    hide V, Pow, BitLength;
    ghost var b := Pow(BASE, n);
    Halves(product, n);
    VBound(product, 0, n);
    bits := NumBits(n, product, n);
    if bits != 0 {
      PowBase(n);
      TopDigitBits(V(product, 0, n), V(product, n, n), n, bits);
      bits := bits + n * 64;
    } else {
      BitLengthZero(V(product, n, n));
      bits := NumBits(n, product, 0);
    }
  }

  lemma BitLengthZero(v: nat)
    requires BitLength(v, 0)
    ensures v == 0
  {
  }

  /** A number whose only nonzero digits are m digits from ds on. */
  lemma PlacedDigits(S: seq<nat>, ds: nat, m: nat)
    requires ds + m <= |S|
    requires forall i :: 0 <= i < ds ==> S[i] == 0
    requires forall i :: ds + m <= i < |S| ==> S[i] == 0
    ensures Val(S, BASE) == Pow(BASE, ds) * Val(S[ds..ds + m], BASE)
  {
    hide Val, Pow;
    ValSplit(S, ds, BASE);
    ValZeros(S[..ds], BASE);
    var T := S[ds..];
    ValSplit(T, m, BASE);
    ValZeros(T[m..], BASE);
    assert T[..m] == S[ds..ds + m];
  }

  lemma PlacedWithCarry(S: seq<nat>, D: seq<nat>, ds: nat, carry: nat)
    requires ds + |D| < |S|
    requires S[ds..ds + |D|] == D && S[ds + |D|] == carry
    requires forall i :: 0 <= i < ds ==> S[i] == 0
    requires forall i :: ds + |D| < i < |S| ==> S[i] == 0
    ensures Val(S, BASE) == Pow(BASE, ds) * (Val(D, BASE) + carry * Pow(BASE, |D|))
  {
    hide Val, Pow;
    PlacedDigits(S, ds, |D| + 1);
    assert S[ds..ds + |D| + 1] == S[ds..ds + |D|] + [carry];
    ValAppend(D, carry, BASE);
  }

  lemma ShiftedValue(v: nat, ds: nat, bs: nat)
    ensures Pow(BASE, ds) * (v * Pow2(bs)) == v * Pow2(64 * ds + bs)
  {
    PowBase(ds);
    Pow2Add(64 * ds, bs);
    Assoc(Pow2(64 * ds), v, Pow2(bs));
  }

  /** `l_modmultiple = mod << (64 * digitShift + bitShift)` */
  method ShiftMod(n: nat, mm: array<u64>, mod: array<u64>, digitShift: nat, bitShift: nat)
    requires n > 0 && mm.Length == 2 * n && mod.Length == n && mm != mod
    requires bitShift < 64
    requires TopIndexWritten(n, 64 * digitShift + bitShift) < 2 * n
    modifies mm
    ensures V(mm, 0, 2 * n) == V(mod, 0, n) * Pow2(64 * digitShift + bitShift)
  {
    hide V, Pow, Pow2;
    ShiftParts(n, digitShift, bitShift);
    Clear(n, mm, 0);
    Clear(n, mm, n);
    ShiftedValue(V(mod, 0, n), digitShift, bitShift);
    if bitShift != 0 {
      PlaceShifted(n, mm, mod, digitShift, bitShift);
    } else {
      PlaceWhole(n, mm, mod, digitShift);
      NoShift(V(mod, 0, n));
    }
  }

  method PlaceShifted(n: nat, mm: array<u64>, mod: array<u64>, digitShift: nat, bitShift: nat)
    requires n > 0 && mm.Length == 2 * n && mod.Length == n && mm != mod
    requires 0 < bitShift < 64 && digitShift + n < 2 * n
    requires forall k :: 0 <= k < 2 * n ==> mm[k] == 0
    modifies mm
    ensures V(mm, 0, 2 * n) == Pow(BASE, digitShift) * (V(mod, 0, n) * Pow2(bitShift))
  {
    hide Val, Pow, Pow2;
    var carry := Lshift(n, mm, digitShift, mod, 0, bitShift);
    ghost var D: seq<nat> := mm[digitShift..digitShift + n];
    mm[digitShift + n] := carry;
    assert mm[digitShift..digitShift + n] == D;
    PlacedWithCarry(mm[0..2 * n], D, digitShift, carry);
  }

  method PlaceWhole(n: nat, mm: array<u64>, mod: array<u64>, digitShift: nat)
    requires n > 0 && mm.Length == 2 * n && mod.Length == n && mm != mod
    requires digitShift + n <= 2 * n
    requires forall k :: 0 <= k < 2 * n ==> mm[k] == 0
    modifies mm
    ensures V(mm, 0, 2 * n) == Pow(BASE, digitShift) * V(mod, 0, n)
  {
    hide Val, Pow;
    Set(n, mm, digitShift, mod, 0);
    ghost var S: seq<nat> := mm[0..2 * n];
    PlacedDigits(S, digitShift, n);
    assert S[digitShift..digitShift + n] == mm[digitShift..digitShift + n];
  }

  lemma NoShift(v: nat)
    ensures v * Pow2(0) == v
  {
  }

  lemma ShiftParts(n: nat, ds: nat, bs: nat)
    requires n > 0 && bs < 64
    requires TopIndexWritten(n, 64 * ds + bs) < 2 * n
    ensures ds + n <= 2 * n && (bs != 0 ==> ds + n < 2 * n)
  {
    DivModUnique(64 * ds + bs, 64, ds, bs);
  }

  /** The reduced remainder occupies the low half. */
  lemma ReducedInLowHalf(product: array<u64>, n: nat, m: nat)
    requires n > 0 && product.Length == 2 * n
    requires V(product, 0, 2 * n) < m <= Pow(BASE, n)
    ensures V(product, 0, n) == V(product, 0, 2 * n)
  {
    hide V, Pow;
    Halves(product, n);
    VBound(product, 0, n);
    MulAtLeast(Pow(BASE, n), V(product, n, n));
  }

  /** The guard of the loop holds exactly while there are bits left. */
  lemma GuardExact(mm: array<u64>, n: nat, x: nat, m: nat, mb: nat, pb: int, p: nat)
    requires n > 0 && mm.Length == 2 * n
    requires BitLength(m, mb) && mb <= 64 * n
    requires Running(x, m, pb - mb, p, V(mm, 0, 2 * n))
    ensures pb > n * 64 || V(mm, 0, n) >= m <==> pb >= mb
  {
    hide V, Pow, Pow2;
    PowBase(n);
    var v := V(mm, 0, 2 * n);
    if pb >= mb {
      if pb <= n * 64 {
        Pow2Add(mb, pb - mb);
        MulLe(Pow2(pb - mb), m, Pow2(mb));
        MultipleBelow(m, mb, pb - mb);
        assert mb + (pb - mb) == pb;
        Pow2Monotone(pb, 64 * n);
        ReducedInLowHalf(mm, n, Pow(BASE, n));
        MulAtLeast(m, Pow2(pb - mb));
      }
    } else {
      Pow2Monotone(mb, 64 * n);
      ReducedInLowHalf(mm, n, Pow(BASE, n));
    }
  }

  lemma MultipleBelow(m: nat, mb: nat, k: nat)
    requires m < Pow2(mb)
    ensures m * Pow2(k) < Pow2(mb) * Pow2(k)
  {
    MulLe(Pow2(k), m, Pow2(mb) - 1);
    DistribSub(Pow2(k), Pow2(mb), 1);
  }

  /** The loop of vli_modmult. */
  method Loop(n: nat, product: array<u64>, mm: array<u64>, one: array<u64>, mod: array<u64>, bits: nat,
              ghost mb: nat, ghost x: nat)
    requires n > 0 && product.Length == 2 * n && mm.Length == 2 * n && one.Length == n && mod.Length == n
    requires product != mm && product !in {one, mod} && mm !in {one, mod}
    requires V(one, 0, n) == 1
    requires BitLength(V(mod, 0, n), mb) && mb <= bits
    requires Running(x, V(mod, 0, n), bits - mb, V(product, 0, 2 * n), V(mm, 0, 2 * n))
    modifies product, mm
    ensures V(product, 0, 2 * n) < V(mod, 0, n)
    ensures Cong(V(product, 0, 2 * n), x, V(mod, 0, n))
  {
    hide V, Cong, BitLength, Running;
    ghost var m := V(mod, 0, n);
    ModBits(mod, n, mb);
    var pb: int := bits;
    GuardExact(mm, n, x, m, mb, pb, V(product, 0, 2 * n));
    var cmp := Cmp(n, mm, 0, mod, 0);
    while pb > n * 64 || cmp >= 0
      invariant V(mod, 0, n) == m && V(one, 0, n) == 1
      invariant Running(x, m, pb - mb, V(product, 0, 2 * n), V(mm, 0, 2 * n))
      invariant cmp == SignOf(V(mm, 0, n) - m)
      invariant pb > n * 64 || cmp >= 0 <==> pb >= mb
      decreases pb - mb
    {
      ghost var p, v := V(product, 0, 2 * n), V(mm, 0, 2 * n);
      SubtractMultiple(n, product, mm, one);
      ShiftMultiple(n, mm);
      RunningStep(x, m, pb - mb, p, v, V(product, 0, 2 * n));
      pb := pb - 1;
      GuardExact(mm, n, x, m, mb, pb, V(product, 0, 2 * n));
      cmp := Cmp(n, mm, 0, mod, 0);
    }
    RunningEnd(x, m, pb - mb, V(product, 0, 2 * n), V(mm, 0, 2 * n));
  }

  lemma RunningEnd(x: nat, m: nat, k: int, p: nat, mm: nat)
    requires Running(x, m, k, p, mm) && k < 0
    ensures p < m && Cong(p, x, m)
  {
  }

  lemma ModBits(mod: array<u64>, n: nat, mb: nat)
    requires Slice(mod, 0, n) && BitLength(V(mod, 0, n), mb)
    ensures mb <= 64 * n
  {
    VBound(mod, 0, n);
    PowBase(n);
    if mb > 64 * n { Pow2Monotone(64 * n, mb - 1); }
  }

  /** vli_modmult: result = (left * right) % mod, for a nonzero mod whose shift
      stays inside the double-length buffer. */
  method ModMult(n: nat, result: array<u64>, left: array<u64>, right: array<u64>, mod: array<u64>)
    requires 0 < n < 0x8000_0000
    requires result.Length == n && left.Length == n && right.Length == n && mod.Length == n
    requires result != mod
    requires V(mod, 0, n) > 0
    requires BitCount(V(left, 0, n) * V(right, 0, n)) <= BitCount(V(mod, 0, n)) + 64 * n
    modifies result
    ensures V(result, 0, n) == old(V(left, 0, n) * V(right, 0, n)) % V(mod, 0, n)
  {
    hide V, Cong, BitLength, Running, BitCount, SameOutside;
    ghost var x, m := V(left, 0, n) * V(right, 0, n), V(mod, 0, n);
    VBound(mod, 0, n);
    var product, mm := new u64[2 * n], new u64[2 * n];
    var modBits := NumBits(n, mod, 0);
    Mult(n, product, left, right);
    var productBits := ProductBits(n, product);
    BitCounts(x, productBits);
    BitCounts(m, modBits);
    if productBits < modBits {
      Smaller(x, productBits, m, modBits);
      ReducedInLowHalf(product, n, m);
      Set(n, result, 0, product, 0);
      DivModUnique(x, m, 0, x);
      return;
    }
    var shift := productBits - modBits;
    assert shift == 64 * (shift / 64) + shift % 64;
    ShiftInBounds(n, shift);
    ShiftMod(n, mm, mod, shift / 64, shift % 64);
    SetOne(n, result);
    RunningStart(x, m, productBits, modBits);
    Loop(n, product, mm, result, mod, productBits, modBits, x);
    ReducedInLowHalf(product, n, m);
    Set(n, result, 0, product, 0);
    CongSym(V(product, 0, 2 * n), x, m);
    CongMod(x, V(product, 0, 2 * n), m);
  }

  lemma BitCounts(v: nat, bits: nat)
    requires BitLength(v, bits)
    ensures BitCount(v) == bits
  {
    BitCountIsBitLength(v);
    BitLengthUnique(v, bits, BitCount(v));
  }

  lemma Smaller(x: nat, pb: nat, m: nat, mb: nat)
    requires BitLength(x, pb) && BitLength(m, mb) && pb < mb
    ensures x < m
  {
    Pow2Monotone(pb, mb - 1);
  }
}
