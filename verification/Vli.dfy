/** crypto/ecc.c: the in-place primitives on fixed-length arrays of 64-bit
    digits.  A C pointer `p + off` to NUM_ECC_DIGITS digits is an array, an
    offset and the digit count `n`; operands may be the same slice as the
    result, as the C code allows. */
module Vli {
  import opened Arith
  import opened Bits
  import opened Limbs
  import opened Machine

  const BASE: int := 0x1_0000_0000_0000_0000

  predicate Slice(a: array<u64>, off: nat, n: nat)
  {
    off + n <= a.Length
  }

  /** A result slice may coincide with an operand slice but not straddle it. */
  predicate Compatible(a: array<u64>, ao: nat, b: array<u64>, bo: nat, n: nat)
  {
    a != b || ao == bo || ao + n <= bo || bo + n <= ao
  }

  /** The number held in `n` digits of `a` from `off`. */
  ghost function V(a: array<u64>, off: nat, n: nat): (v: nat)
    requires Slice(a, off, n)
    reads a
  {
    Val(a[off..off + n], BASE)
  }

  twostate predicate SameOutside(a: array<u64>, off: nat, n: nat)
    reads a
  {
    forall k :: 0 <= k < a.Length && !(off <= k < off + n) ==> a[k] == old(a[k])
  }

  lemma VBound(a: array<u64>, off: nat, n: nat)
    requires Slice(a, off, n)
    ensures V(a, off, n) < Pow(BASE, n)
  {
    ValBound(a[off..off + n], BASE);
  }

  /** vli_clear */
  method Clear(n: nat, vli: array<u64>, off: nat)
    requires Slice(vli, off, n)
    modifies vli
    ensures V(vli, off, n) == 0
    ensures forall k :: off <= k < off + n ==> vli[k] == 0
    ensures SameOutside(vli, off, n)
  {
    for i := 0 to n
      invariant forall k :: off <= k < off + i ==> vli[k] == 0
      invariant SameOutside(vli, off, n)
    {
      vli[off + i] := 0;
    }
    ValZeros(vli[off..off + n], BASE);
  }

  /** vli_iszero */
  method IsZero(n: nat, vli: array<u64>, off: nat) returns (zero: bool)
    requires Slice(vli, off, n)
    ensures zero <==> V(vli, off, n) == 0
  {
    for i := 0 to n
      invariant forall k :: off <= k < off + i ==> vli[k] == 0
    {
      if vli[off + i] != 0 {
        ValPositive(vli[off..off + n], i, BASE);
        return false;
      }
    }
    ValZeros(vli[off..off + n], BASE);
    return true;
  }

  /** vli_set */
  method Set(n: nat, dest: array<u64>, d: nat, src: array<u64>, s: nat)
    requires Slice(dest, d, n) && Slice(src, s, n)
    requires Compatible(dest, d, src, s, n)
    modifies dest
    ensures dest[d..d + n] == old(src[s..s + n])
    ensures V(dest, d, n) == old(V(src, s, n))
    ensures SameOutside(dest, d, n)
  {
    ghost var S: seq<nat> := src[s..s + n];
    for i := 0 to n
      invariant forall k :: 0 <= k < i ==> dest[d + k] == S[k]
      invariant forall k :: i <= k < n ==> src[s + k] == S[k]
      invariant SameOutside(dest, d, n)
    {
      dest[d + i] := src[s + i];
    }
    assert dest[d..d + n] == S;
  }

  /** vli_cmp */
  method Cmp(n: nat, left: array<u64>, lo: nat, right: array<u64>, r: nat) returns (c: int)
    requires Slice(left, lo, n) && Slice(right, r, n)
    ensures c == SignOf(V(left, lo, n) - V(right, r, n))
  {
    ghost var L: seq<nat>, R: seq<nat> := left[lo..lo + n], right[r..r + n];
    var i := n;
    while i > 0
      invariant 0 <= i <= n
      invariant L[i..] == R[i..]
    {
      i := i - 1;
      assert L[i] == left[lo + i] && R[i] == right[r + i];
      if left[lo + i] > right[r + i] {
        ValTopLess(R, L, i, BASE);
        return 1;
      } else if left[lo + i] < right[r + i] {
        ValTopLess(L, R, i, BASE);
        return -1;
      }
      assert L[i..] == [L[i]] + L[i + 1..];
      assert R[i..] == [R[i]] + R[i + 1..];
    }
    assert L == L[0..] && R == R[0..];
    return 0;
  }

  /** Unsigned 64-bit wrap-around of a sum or difference of two digits and a carry. */
  function Wrap(x: int): (r: u64)
    requires -BASE <= x < 2 * BASE
    ensures r == x || r == x - BASE || r == x + BASE
  {
    if x < 0 then x + BASE else if x >= BASE then x - BASE else x
  }

  /** The loop body of vli_add: an unchanged digit keeps the carry, any other
      digit carries exactly when the sum wrapped. */
  method AddDigit(l: u64, r: u64, carry: u64) returns (sum: u64, carry': u64)
    requires carry <= 1
    ensures carry' <= 1
    ensures l as int + r as int + carry as int == sum as int + carry' * BASE
  {
    sum, carry' := Wrap(l as int + r as int + carry as int), carry;
    if sum != l {
      carry' := if sum < l then 1 else 0;
    }
  }

  /** The loop body of vli_sub. */
  method SubDigit(l: u64, r: u64, borrow: u64) returns (diff: u64, borrow': u64)
    requires borrow <= 1
    ensures borrow' <= 1
    ensures l as int - r as int - borrow as int == diff as int - borrow' * BASE
  {
    diff, borrow' := Wrap(l as int - r as int - borrow as int), borrow;
    if diff != l {
      borrow' := if diff > l then 1 else 0;
    }
  }

  /** vli_add: result = left + right, returning the carry. */
  method Add(n: nat, result: array<u64>, ro: nat, left: array<u64>, lo: nat, right: array<u64>, r: nat)
    returns (carry: u64)
    requires Slice(result, ro, n) && Slice(left, lo, n) && Slice(right, r, n)
    requires Compatible(result, ro, left, lo, n) && Compatible(result, ro, right, r, n)
    modifies result
    ensures carry <= 1
    ensures V(result, ro, n) + carry * Pow(BASE, n) == old(V(left, lo, n) + V(right, r, n))
    ensures SameOutside(result, ro, n)
  {
    hide Val, Pow;
    ghost var L: seq<nat>, R: seq<nat>, Z: seq<nat> := left[lo..lo + n], right[r..r + n], [];
    carry := 0;
    ValEmpty(BASE);
    for i := 0 to n
      invariant carry <= 1 && |Z| == i
      invariant forall k :: 0 <= k < i ==> result[ro + k] == Z[k]
      invariant forall k :: i <= k < n ==> left[lo + k] == L[k]
      invariant forall k :: i <= k < n ==> right[r + k] == R[k]
      invariant Val(Z, BASE) + carry * Pow(BASE, i) == Val(L[..i], BASE) + Val(R[..i], BASE)
      invariant SameOutside(result, ro, n)
    {
      var sum, carry' := AddDigit(left[lo + i], right[r + i], carry);
      AddStep(L, R, Z, carry, sum, carry', BASE);
      result[ro + i], carry, Z := sum, carry', Z + [sum];
    }
    assert L[..n] == L && R[..n] == R;
    assert result[ro..ro + n] == Z;
  }

  /** vli_sub: result = left - right, returning the borrow. */
  method Sub(n: nat, result: array<u64>, ro: nat, left: array<u64>, lo: nat, right: array<u64>, r: nat)
    returns (borrow: u64)
    requires Slice(result, ro, n) && Slice(left, lo, n) && Slice(right, r, n)
    requires Compatible(result, ro, left, lo, n) && Compatible(result, ro, right, r, n)
    modifies result
    ensures borrow <= 1
    ensures V(result, ro, n) == old(V(left, lo, n) - V(right, r, n)) + borrow * Pow(BASE, n)
    ensures SameOutside(result, ro, n)
  {
    hide Val, Pow;
    ghost var L: seq<nat>, R: seq<nat>, Z: seq<nat> := left[lo..lo + n], right[r..r + n], [];
    borrow := 0;
    ValEmpty(BASE);
    for i := 0 to n
      invariant borrow <= 1 && |Z| == i
      invariant forall k :: 0 <= k < i ==> result[ro + k] == Z[k]
      invariant forall k :: i <= k < n ==> left[lo + k] == L[k]
      invariant forall k :: i <= k < n ==> right[r + k] == R[k]
      invariant Val(L[..i], BASE) + borrow * Pow(BASE, i) == Val(Z, BASE) + Val(R[..i], BASE)
      invariant SameOutside(result, ro, n)
    {
      var diff, borrow' := SubDigit(left[lo + i], right[r + i], borrow);
      SubStep(L, R, Z, borrow, diff, borrow', BASE);
      result[ro + i], borrow, Z := diff, borrow', Z + [diff];
    }
    assert L[..n] == L && R[..n] == R;
    assert result[ro..ro + n] == Z;
  }

  const TOP_BIT: int := 0x8000_0000_0000_0000

  /** The carry word of vli_rshift1 holds one bit, in the top position. */
  ghost function Bit63(carry: u64): int { if carry == 0 then 0 else 1 }

  /** The loop body of vli_rshift1. */
  method RshiftDigit(t: u64, carry: u64) returns (d: u64, carry': u64)
    requires carry == 0 || carry == TOP_BIT
    ensures carry' == 0 || carry' == TOP_BIT
    ensures 2 * d + Bit63(carry') == t + Bit63(carry) * BASE
  {
    Pow2Literals();
    assert carry == Bit63(carry) * Pow2(63);
    OrDisjoint(carry, t / 2, 63);
    d := Or(t / 2, carry);
    carry' := if t % 2 == 0 then 0 else TOP_BIT;
  }

  lemma RshiftAlgebra(v: int, w: int, d: int, t: int, c: int, c': int)
    requires 2 * w + c == v
    requires 2 * d + c' == t + c * BASE
    ensures 2 * (d + BASE * w) + c' == t + BASE * v
  {
  }

  /** vli_rshift1: the value is halved, rounding down. */
  method Rshift1(n: nat, vli: array<u64>, off: nat)
    requires Slice(vli, off, n)
    modifies vli
    ensures V(vli, off, n) == old(V(vli, off, n)) / 2
    ensures n > 0 ==> vli[off + n - 1] < TOP_BIT
    ensures SameOutside(vli, off, n)
  {
    hide Val, Pow;
    ghost var S: seq<nat> := vli[off..off + n];
    ghost var D: seq<nat> := [];
    ValEmpty(BASE);
    assert S[n..] == [];
    var carry: u64 := 0;
    var i := n;
    while i > 0
      invariant 0 <= i <= n
      invariant carry == 0 || carry == TOP_BIT
      invariant |D| == n - i
      invariant forall k :: 0 <= k < i ==> vli[off + k] == S[k]
      invariant forall k :: 0 <= k < |D| ==> vli[off + i + k] == D[k]
      invariant 2 * Val(D, BASE) + Bit63(carry) == Val(S[i..], BASE)
      invariant i == n ==> carry == 0
      invariant i < n ==> vli[off + n - 1] < TOP_BIT
      invariant SameOutside(vli, off, n)
    {
      i := i - 1;
      assert vli[off + i] == S[i];
      var d, carry' := RshiftDigit(vli[off + i], carry);
      RshiftAlgebra(Val(S[i + 1..], BASE), Val(D, BASE), d, S[i], Bit63(carry), Bit63(carry'));
      ValSuffix(S, i, BASE);
      ValCons(d, D, BASE);
      vli[off + i], carry, D := d, carry', [d] + D;
    }
    assert S[0..] == S;
    assert vli[off..off + n] == D;
  }

  lemma LshiftDigitAlgebra(t: nat, q: nat, low: nat, k: nat, m: nat)
    requires k * m == BASE
    requires t == q * m + low && low < m
    ensures t * k == q * BASE + low * k
    ensures 0 <= low * k < BASE
  {
    Distrib(k, q * m, low);
    Assoc(q, m, k);
    MulLe(k, low, m - 1);
    MulNonNeg(k, low);
    DistribSub(k, m, 1);
    MulAtLeast(m, k);
  }

  /** The loop body of vli_lshift. */
  method LshiftDigit(t: u64, shift: nat, carry: u64) returns (d: u64, carry': u64)
    requires 0 < shift < 64
    requires carry < Pow2(shift)
    ensures carry' < Pow2(shift)
    ensures d + carry' * BASE == t * Pow2(shift) + carry
  {
    ghost var k, m := Pow2(shift), Pow2(64 - shift);
    assert k * m == BASE by { Pow2Literals(); Pow2Add(shift, 64 - shift); }
    LshiftWord(t, shift);
    var high: nat := (t * Pow2(shift)) % BASE;
    carry' := t / Pow2(64 - shift);
    assert high == (t % m) * k;
    OrDisjoint(high, carry, shift);
    OrBound(t % m, k, m, carry);
    d := Or(high, carry);
  }

  lemma OrBound(low: nat, k: nat, m: nat, carry: nat)
    requires k * m == BASE && low < m && carry < k
    ensures low * k + carry < BASE
  {
    MulLe(k, low, m - 1);
    DistribSub(k, m, 1);
  }

  lemma LshiftWord(t: u64, shift: nat)
    requires 0 < shift < 64
    ensures 0 <= t / Pow2(64 - shift) < Pow2(shift)
    ensures (t * Pow2(shift)) % BASE == (t % Pow2(64 - shift)) * Pow2(shift)
    ensures t * Pow2(shift) == (t / Pow2(64 - shift)) * BASE + (t % Pow2(64 - shift)) * Pow2(shift)
  {
    var k, m := Pow2(shift), Pow2(64 - shift);
    assert k * m == BASE by { Pow2Literals(); Pow2Add(shift, 64 - shift); }
    var q, low := t / m, t % m;
    assert t == q * m + low;
    LshiftDigitAlgebra(t, q, low, k, m);
    DivModUnique(t * k, BASE, q, low * k);
    QuotientBound(t, q, low, k, m);
  }

  lemma QuotientBound(t: nat, q: nat, low: nat, k: nat, m: nat)
    requires t == q * m + low && t < k * m && m > 0
    ensures q < k
  {
    if q >= k { MulLe(m, k, q); }
  }

  lemma LshiftStep(S: seq<nat>, Z: seq<nat>, k: nat, c: nat, d: nat, c': nat)
    requires |Z| < |S|
    requires Val(Z, BASE) + c * Pow(BASE, |Z|) == Val(S[..|Z|], BASE) * k
    requires d + c' * BASE == S[|Z|] * k + c
    ensures Val(Z + [d], BASE) + c' * Pow(BASE, |Z| + 1) == Val(S[..|Z| + 1], BASE) * k
  {
    var i := |Z|;
    ShiftAlgebra(Val(S[..i], BASE), Val(Z, BASE), Pow(BASE, i), S[i], k, d, c, c', BASE);
    ValAppend(Z, d, BASE);
    ValPrefix(S, i, BASE);
  }

  /** vli_lshift: result = in << shift, returning the bits shifted out. */
  method Lshift(n: nat, result: array<u64>, ro: nat, src: array<u64>, so: nat, shift: nat) returns (carry: u64)
    requires Slice(result, ro, n) && Slice(src, so, n)
    requires Compatible(result, ro, src, so, n)
    requires 0 < shift < 64
    modifies result
    ensures carry < Pow2(shift)
    ensures V(result, ro, n) + carry * Pow(BASE, n) == old(V(src, so, n)) * Pow2(shift)
    ensures SameOutside(result, ro, n)
  {
    hide Val, Pow;
    ghost var S: seq<nat>, Z: seq<nat>, k := src[so..so + n], [], Pow2(shift);
    carry := 0;
    ValEmpty(BASE);
    for i := 0 to n
      invariant carry < k && |Z| == i
      invariant forall j :: 0 <= j < i ==> result[ro + j] == Z[j]
      invariant forall j :: i <= j < n ==> src[so + j] == S[j]
      invariant Val(Z, BASE) + carry * Pow(BASE, i) == Val(S[..i], BASE) * k
      invariant SameOutside(result, ro, n)
    {
      var d, carry' := LshiftDigit(src[so + i], shift, carry);
      LshiftStep(S, Z, k, carry, d, carry');
      result[ro + i], carry, Z := d, carry', Z + [d];
    }
    assert S[..n] == S;
    assert result[ro..ro + n] == Z;
  }

  /** vli_numdigits: the index above the top nonzero digit. */
  method NumDigits(n: nat, vli: array<u64>, off: nat) returns (d: nat)
    requires Slice(vli, off, n)
    ensures d <= n
    ensures d > 0 ==> vli[off + d - 1] != 0
    ensures V(vli, off, n) == V(vli, off, d)
  {
    hide Val, Pow;
    ghost var S: seq<nat> := vli[off..off + n];
    d := n;
    assert S[..n] == S;
    while d > 0 && vli[off + d - 1] == 0
      invariant 0 <= d <= n
      invariant Val(S, BASE) == Val(S[..d], BASE)
    {
      d := d - 1;
      ValPrefix(S, d, BASE);
    }
    assert S[..d] == vli[off..off + d];
  }

  /** The bit length of one digit, as the loop of vli_numbits counts it. */
  method DigitBits(digit: u64) returns (i: nat)
    ensures digit < Pow2(i)
    ensures i > 0 ==> Pow2(i - 1) <= digit
    ensures i <= 64
  {
    var l := digit;
    i := 0;
    while l != 0
      invariant 0 <= l
      invariant l * Pow2(i) <= digit < l * Pow2(i) + Pow2(i)
      invariant l == 0 && i > 0 ==> Pow2(i - 1) <= digit
      decreases l
    {
      HalveStep(l, digit, Pow2(i));
      l := l / 2;
      i := i + 1;
    }
    if i > 64 {
      Pow2Literals();
      Pow2Monotone(64, i - 1);
    }
  }

  lemma HalveStep(l: nat, x: nat, p: nat)
    requires l > 0 && p > 0
    requires l * p <= x < l * p + p
    ensures (l / 2) * (2 * p) <= x < (l / 2) * (2 * p) + 2 * p
    ensures p <= x
  {
    MulAtLeast(p, l);
    var h, b := l / 2, l % 2;
    assert l == 2 * h + b;
    Distrib(p, 2 * h, b);
    Assoc(h, 2, p);
  }

  /** `v` needs exactly `bits` bits. */
  ghost predicate BitLength(v: nat, bits: nat)
  {
    v < Pow2(bits) && (bits > 0 ==> Pow2(bits - 1) <= v)
  }

  lemma BitLengthUnique(v: nat, m: nat, n: nat)
    requires BitLength(v, m) && BitLength(v, n)
    ensures m == n
  {
    if m < n { Pow2Monotone(m, n - 1); }
    if n < m { Pow2Monotone(n, m - 1); }
  }

  lemma TopDigitBits(low: nat, t: nat, m: nat, i: nat)
    requires low < Pow2(64 * m)
    requires BitLength(t, i) && i > 0
    ensures BitLength(low + t * Pow2(64 * m), 64 * m + i)
  {
    var p := Pow2(64 * m);
    Pow2Add(64 * m, i);
    Pow2Add(64 * m, i - 1);
    MulLe(p, t, Pow2(i) - 1);
    DistribSub(p, Pow2(i), 1);
    MulLe(p, Pow2(i - 1), t);
  }

  lemma PowBase(n: nat)
    ensures Pow(BASE, n) == Pow2(64 * n)
  {
    Pow2Literals();
    PowOfPow2(64, n);
  }

  /** vli_numbits */
  method NumBits(n: nat, vli: array<u64>, off: nat) returns (bits: nat)
    requires Slice(vli, off, n)
    ensures BitLength(V(vli, off, n), bits)
    ensures bits <= 64 * n
  {
    var d := NumDigits(n, vli, off);
    if d == 0 {
      return 0;
    }
    var i := DigitBits(vli[off + d - 1]);
    bits := (d - 1) * 64 + i;
    ghost var S: seq<nat> := vli[off..off + d];
    ValPrefix(S, d - 1, BASE);
    assert S[..d - 1 + 1] == S;
    ValBound(S[..d - 1], BASE);
    PowBase(d - 1);
    assert Pow2(0) == 1;
    TopDigitBits(Val(S[..d - 1], BASE), S[d - 1], d - 1, i);
  }

  /** vli_modadd: result = (left + right) % mod. */
  method ModAdd(n: nat, result: array<u64>, left: array<u64>, right: array<u64>, mod: array<u64>)
    requires Slice(result, 0, n) && Slice(left, 0, n) && Slice(right, 0, n) && Slice(mod, 0, n)
    requires result != mod
    requires V(left, 0, n) < V(mod, 0, n) && V(right, 0, n) < V(mod, 0, n)
    modifies result
    ensures V(result, 0, n) == old(V(left, 0, n) + V(right, 0, n)) % old(V(mod, 0, n))
    ensures SameOutside(result, 0, n)
  {
    hide V, Val, Pow;
    ghost var x, m, p := V(left, 0, n) + V(right, 0, n), V(mod, 0, n), Pow(BASE, n);
    VBound(mod, 0, n);
    var carry := Add(n, result, 0, left, 0, right, 0);
    ghost var z := V(result, 0, n);
    VBound(result, 0, n);
    var c := Cmp(n, result, 0, mod, 0);
    if carry != 0 || c >= 0 {
      var borrow := Sub(n, result, 0, result, 0, mod, 0);
      VBound(result, 0, n);
      DistribSub(p, carry, borrow);
      CarryFixed(V(result, 0, n), carry - borrow, p, x - m);
      DivModUnique(x, m, 1, x - m);
    } else {
      DivModUnique(x, m, 0, x);
    }
  }

  /** vli_modsub: result = (left - right) % mod. */
  method ModSub(n: nat, result: array<u64>, left: array<u64>, right: array<u64>, mod: array<u64>)
    requires Slice(result, 0, n) && Slice(left, 0, n) && Slice(right, 0, n) && Slice(mod, 0, n)
    requires result != mod
    requires V(left, 0, n) < V(mod, 0, n) && V(right, 0, n) < V(mod, 0, n)
    modifies result
    ensures V(result, 0, n) == old(V(left, 0, n) - V(right, 0, n)) % old(V(mod, 0, n))
    ensures SameOutside(result, 0, n)
  {
    hide V, Val, Pow;
    ghost var x, m, p := V(left, 0, n) - V(right, 0, n), V(mod, 0, n), Pow(BASE, n);
    VBound(mod, 0, n);
    var borrow := Sub(n, result, 0, left, 0, right, 0);
    VBound(result, 0, n);
    if borrow != 0 {
      var carry := Add(n, result, 0, result, 0, mod, 0);
      VBound(result, 0, n);
      DistribSub(p, carry, borrow);
      CarryFixed(V(result, 0, n), carry - borrow, p, x + m);
      DivModUnique(x, m, -1, x + m);
    } else {
      DivModUnique(x, m, 0, x);
    }
  }

  lemma LowBit(S: seq<nat>)
    requires |S| > 0
    ensures Val(S, BASE) % 2 == S[0] % 2
  {
    var w := 0x8000_0000_0000_0000 * Val(S[1..], BASE);
    assert Val(S, BASE) == S[0] + 2 * w;
  }

  lemma HalfBase(n: nat)
    requires n > 0
    ensures Pow(BASE, n) == 2 * (TOP_BIT * Pow(BASE, n - 1))
  {
  }

  /** `vli[NUM_ECC_DIGITS - 1] |= carry` after a right shift, carry being the top bit or 0. */
  method OrTopBit(n: nat, u: array<u64>, carry: u64)
    requires n > 0 && Slice(u, 0, n)
    requires u[n - 1] < TOP_BIT && (carry == 0 || carry == TOP_BIT)
    modifies u
    ensures V(u, 0, n) == old(V(u, 0, n)) + Bit63(carry) * (TOP_BIT * Pow(BASE, n - 1))
    ensures SameOutside(u, 0, n)
  {
    hide Val, Pow;
    ghost var S: seq<nat>, t := u[0..n], u[n - 1];
    ValPrefix(S, n - 1, BASE);
    assert S[..n] == S;
    OrTop(t, carry);
    u[n - 1] := Or(u[n - 1], carry);
    ghost var S': seq<nat> := u[0..n];
    assert S'[..n - 1] == S[..n - 1];
    assert S'[..n] == S';
    ValPrefix(S', n - 1, BASE);
    Distrib(Pow(BASE, n - 1), t, carry);
  }

  lemma OrTop(t: nat, carry: u64)
    requires t < TOP_BIT && (carry == 0 || carry == TOP_BIT)
    ensures Or(t, carry) == t + carry < BASE
  {
    Pow2Literals();
    assert carry == Bit63(carry) * Pow2(63);
    OrDisjoint(carry, t, 63);
  }

  method SetOne(n: nat, u: array<u64>)
    requires n > 0 && Slice(u, 0, n)
    modifies u
    ensures V(u, 0, n) == 1
    ensures SameOutside(u, 0, n)
  {
    Clear(n, u, 0);
    ghost var S: seq<nat> := u[0..n];
    u[0] := 1;
    assert u[0..n] == [1] + S[1..];
    ValCons(1, S[1..], BASE);
    MulAtLeast(BASE, Val(S[1..], BASE));
  }

  /** The two halves of a double-length number. */
  lemma Halves(a: array<u64>, n: nat)
    requires Slice(a, 0, 2 * n)
    ensures V(a, 0, 2 * n) == V(a, 0, n) + Pow(BASE, n) * V(a, n, n)
  {
    hide Val, Pow;
    ghost var S: seq<nat> := a[0..2 * n];
    ValSplit(S, n, BASE);
    assert S[..n] == a[0..n] && S[n..] == a[n..n + n];
  }

  lemma {:induction false} BitCountIsBitLength(v: nat)
    ensures BitLength(v, BitCount(v))
  {
    if v != 0 { BitCountIsBitLength(v / 2); }
  }
}
