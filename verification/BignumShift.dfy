/** crypto/bn.c: shifts by words and by bits, in place. */
module BignumShift {
  import opened Arith
  import opened Bits
  import opened Limbs
  import opened Bignum
  import opened Machine

  lemma BytePowers(k: nat)
    requires 1 <= k <= 7
    ensures Pow2(k) * Pow2(8 - k) == BYTE
    ensures Pow2(k) >= 2 && Pow2(8 - k) >= 2
  {
    Pow2Literals();
    Pow2Add(k, 8 - k);
  }

  /** The bits that a byte sends up when it is shifted left by k. */
  function Out(x: byte, k: nat): (q: nat)
    requires 1 <= k <= 7
    ensures x == 0 ==> q == 0
  {
    DivNonNeg(x, Pow2(8 - k));
    x / Pow2(8 - k)
  }

  /** `(x << k) | (below >> (8 - k))` stored into a byte. */
  function ShlByte(x: byte, below: byte, k: nat): (r: byte)
    requires 1 <= k <= 7
    ensures r + BYTE * Out(x, k) == x * Pow2(k) + Out(below, k)
  {
    ShlByteOr(x, below, k);
    Or((x * Pow2(k)) % BYTE, below / Pow2(8 - k))
  }

  lemma ShlByteOr(x: byte, below: byte, k: nat)
    requires 1 <= k <= 7
    ensures below / Pow2(8 - k) >= 0
    ensures var r := Or((x * Pow2(k)) % BYTE, below / Pow2(8 - k));
            r < BYTE && r + BYTE * (x / Pow2(8 - k)) == x * Pow2(k) + below / Pow2(8 - k)
  {
    hide Pow2, Or;
    BytePowers(k);
    var m, m' := Pow2(k), Pow2(8 - k);
    SplitShift(x, m, m');
    QuotientBelow(below, m, m');
    OrDisjoint((x % m') * m, below / m', k);
    RoomBelow(x % m', below / m', m, m');
  }

  lemma SplitShift(x: nat, m: nat, m': nat)
    requires m * m' == BYTE && m > 0 && m' > 0
    ensures (x * m) % BYTE == (x % m') * m
    ensures x * m == BYTE * (x / m') + (x % m') * m
  {
    var q, r := x / m', x % m';
    assert x == m' * q + r;
    Distrib(m, m' * q, r);
    Assoc(m, m', q);
    MulLe(m, r, m' - 1);
    DistribSub(m, m', 1);
    MulNonNeg(m, r);
    DivModUnique(x * m, BYTE, q, r * m);
  }

  lemma QuotientBelow(y: nat, m: nat, m': nat)
    requires m * m' == BYTE && y < BYTE && m' > 0
    ensures y / m' < m
  {
    if y / m' >= m {
      MulLe(m', m, y / m');
    }
  }

  lemma RoomBelow(r: nat, y: nat, m: nat, m': nat)
    requires m * m' == BYTE && r < m' && y < m
    ensures r * m + y < BYTE
  {
    MulLe(m, r, m' - 1);
    DistribSub(m, m', 1);
  }

  /** `(x >> k) | (above << (8 - k))` stored into a byte. */
  function ShrByte(x: byte, above: byte, k: nat): (r: byte)
    requires 1 <= k <= 7
    ensures r * Pow2(k) + x % Pow2(k) == x + BYTE * (above % Pow2(k))
  {
    ShrByteOr(x, above, k);
    Or(x / Pow2(k), (above * Pow2(8 - k)) % BYTE)
  }

  lemma ShrByteOr(x: byte, above: byte, k: nat)
    requires 1 <= k <= 7
    ensures x / Pow2(k) >= 0
    ensures var r := Or(x / Pow2(k), (above * Pow2(8 - k)) % BYTE);
            r < BYTE && r * Pow2(k) + x % Pow2(k) == x + BYTE * (above % Pow2(k))
  {
    hide Pow2, Or;
    BytePowers(k);
    var m, m' := Pow2(k), Pow2(8 - k);
    SplitShift(above, m', m);
    QuotientBelow(x, m', m);
    OrDisjoint((above % m) * m', x / m, 8 - k);
    RoomBelow(above % m, x / m, m', m);
    assert x == m * (x / m) + x % m;
    ShrAlgebra(x, x / m, x % m, above % m, m, m');
  }

  lemma ShrAlgebra(x: int, q: int, r: int, w: int, m: int, m': int)
    requires x == m * q + r && m * m' == BYTE
    ensures (q + w * m') * m + r == x + BYTE * w
  {
    Distrib(m, q, w * m');
    Assoc(w, m', m);
  }

  function Below(D: seq<byte>, i: nat): byte
    requires i <= |D|
  {
    if i == 0 then 0 else D[i - 1]
  }

  function Above(D: seq<byte>, i: nat): byte
    requires i <= |D|
  {
    if i == |D| then 0 else D[i]
  }

  /** Left shift by k bits, digit by digit: E is D shifted, dropping the bits
      that leave the top. */
  ghost predicate ShiftedLeft(D: seq<byte>, E: seq<byte>, k: nat)
    requires 1 <= k <= 7
  {
    |E| == |D| && forall i :: 0 <= i < |D| ==> E[i] == ShlByte(D[i], Below(D, i), k)
  }

  lemma {:induction false} ShiftedLeftValue(D: seq<byte>, E: seq<byte>, k: nat, i: nat)
    requires 1 <= k <= 7 && ShiftedLeft(D, E, k) && i <= |D|
    ensures Val(E[..i], BYTE) + Out(Below(D, i), k) * Pow(BYTE, i) == Val(D[..i], BYTE) * Pow2(k)
  {
    hide Val, ShlByte, Pow2, Out;
    if i == 0 {
      ValEmpty(BYTE);
      assert D[..0] == [] && E[..0] == [];
    } else {
      ShiftedLeftValue(D, E, k, i - 1);
      ValPrefix(D, i - 1, BYTE);
      ValPrefix(E, i - 1, BYTE);
      assert E[i - 1] == ShlByte(D[i - 1], Below(D, i - 1), k);
      ShiftAlgebra(Val(D[..i - 1], BYTE), Val(E[..i - 1], BYTE), Pow(BYTE, i - 1),
                   D[i - 1], Pow2(k), E[i - 1], Out(Below(D, i - 1), k), Out(D[i - 1], k), BYTE);
    }
  }

  /** Right shift by k bits, digit by digit. */
  ghost predicate ShiftedRight(D: seq<byte>, E: seq<byte>, k: nat)
    requires 1 <= k <= 7
  {
    |E| == |D| && forall i :: 0 <= i < |D| ==> E[i] == ShrByte(D[i], Above(D, i + 1), k)
  }

  lemma {:induction false} ShiftedRightValue(D: seq<byte>, E: seq<byte>, k: nat, i: nat)
    requires 1 <= k <= 7 && ShiftedRight(D, E, k) && i <= |D|
    ensures Val(E[i..], BYTE) * Pow2(k) + Above(D, i) % Pow2(k) == Val(D[i..], BYTE)
    decreases |D| - i
  {
    hide Val, ShrByte, Pow2;
    if i == |D| {
      ValEmpty(BYTE);
      assert D[i..] == [] && E[i..] == [];
      ZeroMod(Pow2(k));
    } else {
      ShiftedRightValue(D, E, k, i + 1);
      ValSuffix(D, i, BYTE);
      ValSuffix(E, i, BYTE);
      assert E[i] == ShrByte(D[i], Above(D, i + 1), k);
      RightAlgebra(Val(D[i + 1..], BYTE), Val(E[i + 1..], BYTE), Pow2(k),
                   D[i], E[i], D[i] % Pow2(k), Above(D, i + 1) % Pow2(k));
    }
  }

  lemma ZeroMod(m: nat)
    requires m > 0
    ensures 0 % m == 0
  {
  }

  lemma RightAlgebra(v: int, w: int, k: int, t: int, d: int, r: int, c: int)
    requires w * k + c == v
    requires d * k + r == t + BYTE * c
    ensures (d + BYTE * w) * k + r == t + BYTE * v
  {
    Distrib(k, d, BYTE * w);
    Assoc(BYTE, w, k);
  }

  /** The bit loop of bignum_lshift, and lshift_one_bit for k == 1: top word first. */
  method LshiftBits(a: Bn, k: nat) returns (ghost out: nat)
    requires a.Valid() && 1 <= k <= 7
    modifies a`d
    ensures a.Valid()
    ensures out == Out(old(a.d[N - 1]), k)
    ensures a.Mag() + out * Capacity() == old(a.Mag()) * Pow2(k)
  {
    hide Val, Pow, ShlByte, Pow2, Out;
    ghost var D := a.d;
    var i := N - 1;
    while i > 0
      invariant 0 <= i <= N - 1
      invariant a.Valid()
      invariant forall j :: 0 <= j <= i ==> a.d[j] == D[j]
      invariant forall j :: i < j < N ==> a.d[j] == ShlByte(D[j], Below(D, j), k)
    {
      a.d := a.d[i := ShlByte(a.d[i], a.d[i - 1], k)];
      i := i - 1;
    }
    a.d := a.d[0 := ShlByte(a.d[0], 0, k)];
    assert ShiftedLeft(D, a.d, k);
    out := Out(D[N - 1], k);
    ShiftedLeftValue(D, a.d, k, N);
    assert D[..N] == D && a.d[..N] == a.d;
  }

  /** The bit loop of bignum_rshift, and rshift_one_bit for k == 1: low word first. */
  method RshiftBits(a: Bn, k: nat) returns (ghost out: nat)
    requires a.Valid() && 1 <= k <= 7
    modifies a`d
    ensures a.Valid()
    ensures out < Pow2(k)
    ensures a.Mag() * Pow2(k) + out == old(a.Mag())
  {
    hide Val, ShrByte, Pow2;
    ghost var D := a.d;
    var i := 0;
    while i < N - 1
      invariant 0 <= i <= N - 1
      invariant a.Valid()
      invariant forall j :: i <= j < N ==> a.d[j] == D[j]
      invariant forall j :: 0 <= j < i ==> a.d[j] == ShrByte(D[j], Above(D, j + 1), k)
    {
      a.d := a.d[i := ShrByte(a.d[i], a.d[i + 1], k)];
      i := i + 1;
    }
    a.d := a.d[N - 1 := ShrByte(a.d[N - 1], 0, k)];
    assert ShiftedRight(D, a.d, k);
    out := D[0] % Pow2(k);
    ShiftedRightValue(D, a.d, k, 0);
    assert D[0..] == D && a.d[0..] == a.d;
  }

  /** lshift_word */
  method LshiftWord(a: Bn, nwords: nat) returns (ghost out: nat)
    requires a.Valid()
    modifies a`d
    ensures a.Valid()
    ensures a.Mag() + out * Capacity() == old(a.Mag()) * Pow(BYTE, nwords)
  {
    hide Val, Pow;
    ghost var D := a.d;
    var i: int := N - 1;
    while i >= nwords
      invariant -1 <= i <= N - 1 && (nwords <= N ==> i >= nwords - 1)
      invariant nwords > N ==> i == N - 1
      invariant a.Valid()
      invariant forall j :: 0 <= j <= i ==> a.d[j] == D[j]
      invariant forall j :: i < j < N ==> a.d[j] == D[j - nwords]
    {
      a.d := a.d[i := a.d[i - nwords]];
      i := i - 1;
    }
    ghost var top := i;
    while i >= 0
      invariant -1 <= i <= top
      invariant a.Valid()
      invariant forall j :: top < j < N ==> a.d[j] == D[j - nwords]
      invariant forall j :: i < j <= top ==> a.d[j] == 0
    {
      a.d := a.d[i := 0];
      i := i - 1;
    }
    out := WordsOut(D, a.d, nwords);
  }

  lemma WordsOut(D: seq<byte>, E: seq<byte>, w: nat) returns (out: nat)
    requires |D| == |E| == N
    requires forall j :: 0 <= j < N && j < w ==> E[j] == 0
    requires forall j :: w <= j < N ==> E[j] == D[j - w]
    ensures Val(E, BYTE) + out * Capacity() == Val(D, BYTE) * Pow(BYTE, w)
  {
    hide Val, Pow;
    if w <= N {
      ValSplit(E, w, BYTE);
      ValZeros(E[..w], BYTE);
      assert E[w..] == D[..N - w];
      ValSplit(D, N - w, BYTE);
      PowAdd(BYTE, w, N - w);
      out := Val(D[N - w..], BYTE);
      WordsAlgebra(Pow(BYTE, w), Pow(BYTE, N - w), Val(D[..N - w], BYTE), out);
    } else {
      ValZeros(E, BYTE);
      PowAdd(BYTE, N, w - N);
      out := Val(D, BYTE) * Pow(BYTE, w - N);
      Assoc(Val(D, BYTE), Pow(BYTE, w - N), Pow(BYTE, N));
    }
  }

  lemma WordsAlgebra(p: int, q: int, low: int, high: int)
    ensures p * low + high * (p * q) == (low + q * high) * p
  {
    Distrib(p, low, q * high);
    Assoc(high, p, q);
    Assoc(q, high, p);
  }

  /** rshift_word */
  method RshiftWord(a: Bn, nwords: nat) returns (ghost out: nat)
    requires a.Valid()
    modifies a`d
    ensures a.Valid()
    ensures out < Pow(BYTE, nwords)
    ensures a.Mag() * Pow(BYTE, nwords) + out == old(a.Mag())
  {
    hide Val, Pow;
    ghost var D := a.d;
    if nwords >= N {
      for i := 0 to N
        invariant a.Valid()
        invariant forall k :: 0 <= k < i ==> a.d[k] == 0
      {
        a.d := a.d[i := 0];
      }
      out := AllWordsOut(D, a.d, nwords);
      return;
    }
    var i := 0;
    while i < N - nwords
      invariant 0 <= i <= N - nwords
      invariant a.Valid()
      invariant forall j :: 0 <= j < i ==> a.d[j] == D[j + nwords]
      invariant forall j :: i <= j < N ==> a.d[j] == D[j]
    {
      a.d := a.d[i := a.d[i + nwords]];
      i := i + 1;
    }
    while i < N
      invariant N - nwords <= i <= N
      invariant a.Valid()
      invariant forall j :: 0 <= j < N - nwords ==> a.d[j] == D[j + nwords]
      invariant forall j :: N - nwords <= j < i ==> a.d[j] == 0
    {
      a.d := a.d[i := 0];
      i := i + 1;
    }
    out := LowWordsOut(D, a.d, nwords);
  }

  lemma AllWordsOut(D: seq<byte>, E: seq<byte>, w: nat) returns (out: nat)
    requires |D| == |E| == N && w >= N
    requires forall j :: 0 <= j < N ==> E[j] == 0
    ensures out < Pow(BYTE, w)
    ensures Val(E, BYTE) * Pow(BYTE, w) + out == Val(D, BYTE)
  {
    hide Val, Pow;
    ValZeros(E, BYTE);
    ValBound(D, BYTE);
    PowAdd(BYTE, N, w - N);
    PowPositive(BYTE, w - N);
    MulAtLeast(Pow(BYTE, N), Pow(BYTE, w - N));
    out := Val(D, BYTE);
  }

  lemma LowWordsOut(D: seq<byte>, E: seq<byte>, w: nat) returns (out: nat)
    requires |D| == |E| == N && w < N
    requires forall j :: 0 <= j < N - w ==> E[j] == D[j + w]
    requires forall j :: N - w <= j < N ==> E[j] == 0
    ensures out < Pow(BYTE, w)
    ensures Val(E, BYTE) * Pow(BYTE, w) + out == Val(D, BYTE)
  {
    hide Val, Pow;
    ValSplit(E, N - w, BYTE);
    ValZeros(E[N - w..], BYTE);
    assert E[..N - w] == D[w..];
    ValSplit(D, w, BYTE);
    ValBound(D[..w], BYTE);
    out := Val(D[..w], BYTE);
  }

  lemma BitsOfWords(w: nat, k: nat)
    ensures Pow(BYTE, w) * Pow2(k) == Pow2(8 * w + k)
  {
    Pow2Literals();
    PowOfPow2(8, w);
    Pow2Add(8 * w, k);
  }

  lemma TwoShiftsLeft(x: int, y: int, z: int, o1: int, o2: int, p: int, k: int, cap: int)
    requires y + o1 * cap == x * p
    requires z + o2 * cap == y * k
    ensures z + (o2 + o1 * k) * cap == x * (p * k)
  {
    Distrib(cap, o2, o1 * k);
    Assoc(x, p, k);
    Distrib(k, y, o1 * cap);
    Assoc(o1, k, cap);
    Assoc(o1, cap, k);
  }

  /** The two steps of bignum_lshift, and what leaves the top. */
  method LshiftSteps(a: Bn, b: Bn, nbits: nat) returns (ghost out: int)
    requires a.Valid() && b.Valid()
    modifies b
    ensures b.Valid() && b.s == old(a.s)
    ensures b.Mag() + out * Capacity() == old(a.Mag()) * Pow2(nbits)
  {
    hide Val, Pow, Pow2, Capacity;
    out := 0;
    ghost var x := a.Mag();
    var nwords, k := nbits / 8, nbits;
    Assign(b, a);
    BitsOfWords(nwords, nbits - nwords * 8);
    ghost var y, o1: int := x, 0;
    if nwords != 0 {
      o1 := LshiftWord(b, nwords);
      k := k - nwords * 8;
    } else {
      UnitPow();
    }
    y := b.Mag();
    if k != 0 {
      var o2 := LshiftBits(b, k);
      out := o2 + o1 * Pow2(k);
      TwoShiftsLeft(x, y, b.Mag(), o1, o2, Pow(BYTE, nwords), Pow2(k), Capacity());
    } else {
      out := o1;
      UnitPow();
    }
  }

  /** bignum_lshift: b = a << nbits, less the bits that leave the top. */
  method Lshift(a: Bn, b: Bn, nbits: nat)
    requires a.Valid() && b.Valid()
    modifies b
    ensures b.Valid()
    ensures Capacity() > 0 && b.Mag() == (old(a.Mag()) * Pow2(nbits)) % Capacity()
    ensures b.Mag() == old(a.Mag()) * Pow2(nbits) <==> old(a.Mag()) * Pow2(nbits) < Capacity()
    ensures b.s == old(a.s)
  {
    hide Val, Pow, Pow2, Capacity;
    ghost var x := a.Mag();
    var out := LshiftSteps(a, b, nbits);
    MagBound(b);
    MulNonNeg(x, Pow2(nbits));
    LowPart(b.Mag(), out, Capacity(), x * Pow2(nbits));
  }

  lemma LowPart(r: int, q: int, c: int, z: int)
    requires 0 <= r < c && r + q * c == z && 0 <= z
    ensures r == z % c && (r == z <==> z < c)
  {
    DivModUnique(z, c, q, r);
    MulAtLeast(c, q);
  }

  lemma UnitPow()
    ensures Pow(BYTE, 0) == 1 && Pow2(0) == 1
  {
  }

  lemma TwoShiftsRight(x: int, y: int, z: int, r1: int, r2: int, p: int, k: int)
    requires y * p + r1 == x && 0 <= r1 < p
    requires z * k + r2 == y && 0 <= r2 < k
    ensures z * (p * k) + (r2 * p + r1) == x
    ensures 0 <= r2 * p + r1 < p * k
  {
    Distrib(p, z * k, r2);
    Assoc(z, p, k);
    Assoc(z, k, p);
    MulNonNeg(r2, p);
    MulLe(p, r2, k - 1);
    DistribSub(p, k, 1);
  }

  /** The two steps of bignum_rshift, and the bits they drop. */
  method RshiftSteps(a: Bn, b: Bn, nbits: nat) returns (ghost r: nat)
    requires a.Valid() && b.Valid()
    modifies b
    ensures b.Valid() && b.s == old(a.s)
    ensures b.Mag() * Pow2(nbits) + r == old(a.Mag()) && r < Pow2(nbits)
  {
    hide Val, Pow, Pow2, Capacity;
    ghost var x, r1: nat := a.Mag(), 0;
    var nwords, k := nbits / 8, nbits;
    Assign(b, a);
    UnitPow();
    BitsOfWords(nwords, nbits - nwords * 8);
    if nwords != 0 {
      r1 := RshiftWord(b, nwords);
      k := k - nwords * 8;
    }
    ghost var y := b.Mag();
    if k != 0 {
      var r2 := RshiftBits(b, k);
      TwoShiftsRight(x, y, b.Mag(), r1, r2, Pow(BYTE, nwords), Pow2(k));
      r := r2 * Pow(BYTE, nwords) + r1;
    } else {
      r := r1;
    }
  }

  /** bignum_rshift: the magnitude is divided by 2^nbits, rounding towards zero. */
  method Rshift(a: Bn, b: Bn, nbits: nat)
    requires a.Valid() && b.Valid()
    modifies b
    ensures b.Valid()
    ensures b.Mag() == old(a.Mag()) / Pow2(nbits)
    ensures b.s == old(a.s)
  {
    hide Val, Pow, Pow2;
    ghost var x := a.Mag();
    var r := RshiftSteps(a, b, nbits);
    DivModUnique(x, Pow2(nbits), b.Mag(), r);
  }
}
