/** crypto/ecc.c: column-scanning multiplication and squaring (the 128-bit
    accumulator form), against the product of the values. */
module VliProduct {
  import opened Arith
  import opened Bits
  import opened Limbs
  import opened Vli
  import opened Machine

  const BASE2: int := 0x1_0000_0000_0000_0000_0000_0000_0000_0000

  type u128 = x: int | 0 <= x < 0x1_0000_0000_0000_0000_0000_0000_0000_0000

  /** Digit i of a number, zero beyond its length. */
  function Digit(s: seq<nat>, i: int): (d: nat)
  {
    if 0 <= i < |s| then s[i] else 0
  }

  /** The first j terms of column k of the schoolbook product. */
  function Conv(l: seq<nat>, r: seq<nat>, k: nat, j: nat): (c: nat)
  {
    if j == 0 then 0 else Conv(l, r, k, j - 1) + Digit(l, j - 1) * Digit(r, k - (j - 1))
  }

  function Column(l: seq<nat>, r: seq<nat>, k: nat): (c: nat)
  {
    Conv(l, r, k, k + 1)
  }

  /** The first k columns, weighted. */
  function Columns(l: seq<nat>, r: seq<nat>, k: nat): (v: nat)
  {
    if k == 0 then 0 else Columns(l, r, k - 1) + Column(l, r, k - 1) * Pow(BASE, k - 1)
  }

  /** The first k digits of r, zero-extended. */
  function Low(r: seq<nat>, k: nat): (v: nat)
  {
    if k == 0 then 0 else Low(r, k - 1) + Digit(r, k - 1) * Pow(BASE, k - 1)
  }

  lemma {:induction false} LowIsVal(r: seq<nat>, k: nat)
    ensures Low(r, k) == if k <= |r| then Val(r[..k], BASE) else Val(r, BASE)
  {
    if k == 0 {
      ValEmpty(BASE);
      assert r[..0] == [];
    } else {
      LowIsVal(r, k - 1);
      if k <= |r| {
        ValPrefix(r, k - 1, BASE);
      } else {
        assert r[..|r|] == r;
      }
    }
  }

  /** Taking the low digit off the left factor shifts every column by one. */
  lemma {:induction false} ConvPeel(l: seq<nat>, r: seq<nat>, k: nat, j: nat)
    requires |l| > 0 && k > 0
    ensures Conv(l, r, k, j + 1) == l[0] * Digit(r, k) + Conv(l[1..], r, k - 1, j)
  {
    if j == 0 {
      assert Conv(l, r, k, 1) == Conv(l, r, k, 0) + Digit(l, 0) * Digit(r, k);
    } else {
      ConvPeel(l, r, k, j - 1);
      assert Digit(l, j) == Digit(l[1..], j - 1);
      assert Digit(r, k - j) == Digit(r, k - 1 - (j - 1));
    }
  }

  lemma {:induction false} ColumnsPeel(l: seq<nat>, r: seq<nat>, k: nat)
    requires |l| > 0
    ensures Columns(l, r, k + 1) == l[0] * Low(r, k + 1) + BASE * Columns(l[1..], r, k)
  {
    if k == 0 {
      assert Conv(l, r, 0, 1) == Conv(l, r, 0, 0) + Digit(l, 0) * Digit(r, 0);
      assert Columns(l, r, 1) == Columns(l, r, 0) + Column(l, r, 0) * Pow(BASE, 0);
      assert Low(r, 1) == Low(r, 0) + Digit(r, 0) * Pow(BASE, 0);
      assert Columns(l[1..], r, 0) == 0;
    } else {
      ColumnsPeel(l, r, k - 1);
      ConvPeel(l, r, k, k);
      PeelAlgebra(l[0], Low(r, k), Digit(r, k), Pow(BASE, k - 1),
                  Columns(l[1..], r, k - 1), Column(l[1..], r, k - 1));
    }
  }

  lemma PeelAlgebra(d: int, low: int, e: int, p: int, cs: int, c: int)
    ensures d * low + BASE * cs + (d * e + c) * (BASE * p)
         == d * (low + e * (BASE * p)) + BASE * (cs + c * p)
  {
    Distrib(BASE * p, d * e, c);
    Distrib(d, low, e * (BASE * p));
    Assoc(d, e, BASE * p);
    Assoc(c, BASE, p);
  }

  /** Enough columns make the whole product. */
  lemma {:induction false} ColumnsProduct(l: seq<nat>, r: seq<nat>, k: nat)
    requires k + 1 >= |l| + |r|
    ensures Columns(l, r, k) == Val(l, BASE) * Val(r, BASE)
  {
    if |l| == 0 {
      ColumnsZero(l, r, k);
      ValEmpty(BASE);
    } else if k == 0 {
      ValEmpty(BASE);
      assert r == [];
    } else {
      ColumnsPeel(l, r, k - 1);
      ColumnsProduct(l[1..], r, k - 1);
      LowIsVal(r, k);
      if k <= |r| { assert r[..k] == r; }
      Distrib(Val(r, BASE), l[0], BASE * Val(l[1..], BASE));
      Assoc(BASE, Val(l[1..], BASE), Val(r, BASE));
    }
  }

  lemma {:induction false} ColumnsZero(l: seq<nat>, r: seq<nat>, k: nat)
    requires |l| == 0
    ensures Columns(l, r, k) == 0
  {
    if k != 0 {
      ColumnsZero(l, r, k - 1);
      ConvZero(l, r, k - 1, 0, k);
    }
  }

  /** Terms whose digit is absent on either side add nothing. */
  lemma {:induction false} ConvZero(l: seq<nat>, r: seq<nat>, k: nat, i: nat, j: nat)
    requires i <= j <= k + 1
    requires |l| <= i || k - (j - 1) >= |r|
    ensures Conv(l, r, k, j) == Conv(l, r, k, i)
  {
    if i < j {
      ConvZero(l, r, k, i, j - 1);
      assert Digit(l, j - 1) == 0 || Digit(r, k - (j - 1)) == 0;
    }
  }

  /** `r01 += product; r2 += (r01 < product)`: the carry out of 128 bits goes to r2. */
  method Accumulate(r01: u128, r2: u64, product: u128) returns (r01': u128, r2': u64)
    requires r2 < BASE - 1
    ensures r01' + r2' * BASE2 == r01 + r2 * BASE2 + product
    ensures r2 <= r2' <= r2 + 1
  {
    var sum: int := r01 as int + product as int;
    r01' := if sum >= BASE2 then sum - BASE2 else sum;
    r2' := r2 + (if r01' < product then 1 else 0);
  }

  /** The end of a column: one digit leaves the accumulator, the rest moves down. */
  method ShiftColumn(r01: u128, r2: u64) returns (digit: u64, r01': u128)
    ensures digit + BASE * r01' == r01 + r2 * BASE2
  {
    digit := r01 % BASE;
    assert r2 * BASE == r2 * Pow2(64) && Pow2(64) == BASE by { Pow2Literals(); }
    OrDisjoint(r2 * BASE, r01 / BASE, 64);
    r01' := Or(r01 / BASE, r2 * BASE);
  }

  lemma ColumnStep(L: seq<nat>, R: seq<nat>, Z: seq<nat>, d: nat, acc: nat, r01: nat, acc': nat)
    requires Val(Z, BASE) + Pow(BASE, |Z|) * acc == Columns(L, R, |Z|)
    requires r01 == acc + Column(L, R, |Z|)
    requires d + BASE * acc' == r01
    ensures Val(Z + [d], BASE) + Pow(BASE, |Z| + 1) * acc' == Columns(L, R, |Z| + 1)
  {
    var k := |Z|;
    ValAppend(Z, d, BASE);
    Distrib(Pow(BASE, k), acc, Column(L, R, k));
    Distrib(Pow(BASE, k), d, BASE * acc');
    Assoc(BASE, Pow(BASE, k), acc');
  }

  /** The last carry is below the base, because the product fits in 2n digits. */
  lemma LastDigit(L: seq<nat>, R: seq<nat>, Z: seq<nat>, acc: nat)
    requires |L| == |R| > 0 && |Z| == 2 * |L| - 1
    requires Digits(L, BASE) && Digits(R, BASE)
    requires Val(Z, BASE) + Pow(BASE, |Z|) * acc == Columns(L, R, |Z|)
    ensures acc < BASE
    ensures Val(Z + [acc], BASE) == Val(L, BASE) * Val(R, BASE)
  {
    hide Val, Pow, Columns;
    ColumnsProduct(L, R, |Z|);
    ValBound(L, BASE);
    ValBound(R, BASE);
    TopWeight(|L|);
    LastCarry(Val(Z, BASE), Pow(BASE, |Z|), acc, Val(L, BASE), Val(R, BASE), Pow(BASE, |L|));
    ValAppend(Z, acc, BASE);
  }

  lemma TopWeight(n: nat)
    requires n > 0
    ensures Pow(BASE, n) * Pow(BASE, n) == BASE * Pow(BASE, 2 * n - 1)
  {
    PowAdd(BASE, n, n);
    assert n + n == (2 * n - 1) + 1;
  }

  lemma LastCarry(v: nat, w: nat, acc: nat, x: nat, y: nat, p: nat)
    requires v + w * acc == x * y
    requires x < p && y < p && p * p == BASE * w
    ensures acc < BASE
  {
    ProductBound(x, y, p);
    TopBelowBase(v, w, acc);
  }

  lemma TopBelowBase(v: nat, p: nat, acc: nat)
    requires v + p * acc < BASE * p
    ensures acc < BASE
  {
    if acc >= BASE { MulLe(p, BASE, acc); }
  }

  /** vli_mult: result = left * right, exactly. */
  method Mult(n: nat, result: array<u64>, left: array<u64>, right: array<u64>)
    requires 0 < n < 0x8000_0000
    requires Slice(result, 0, 2 * n) && Slice(left, 0, n) && Slice(right, 0, n)
    requires result != left && result != right
    modifies result
    ensures V(result, 0, 2 * n) == old(V(left, 0, n)) * old(V(right, 0, n))
    ensures SameOutside(result, 0, 2 * n)
  {
    hide Val, Pow, Conv, Columns, Truncate;
    ghost var L: seq<nat>, R: seq<nat>, Z: seq<nat> := left[0..n], right[0..n], [];
    ProductStart(L, R);
    var r01: u128, k := 0, 0;
    while k < 2 * n - 1
      invariant 0 <= k <= 2 * n - 1 && |Z| == k
      invariant forall i :: 0 <= i < k ==> result[i] == Z[i]
      invariant left[0..n] == L && right[0..n] == R
      invariant Val(Z, BASE) + Pow(BASE, k) * r01 == Columns(L, R, k)
      invariant SameOutside(result, 0, 2 * n)
    {
      ghost var acc := r01;
      var r2: u64;
      r01, r2 := ScanColumn(n, left, right, k, r01, L, R);
      var digit, next := ShiftColumn(r01, r2);
      ColumnStep(L, R, Z, digit, acc, acc + Column(L, R, k), next);
      result[k], r01, Z := digit, next, Z + [digit];
      k := k + 1;
    }
    LastDigit(L, R, Z, r01);
    result[2 * n - 1] := Truncate(r01);
    assert result[0..2 * n] == Z + [r01];
  }

  /** The cast `(uint64_t)r01`. */
  function Truncate(x: u128): (r: u64)
    ensures x < BASE ==> r == x
  {
    x % BASE
  }

  lemma ProductStart(L: seq<nat>, R: seq<nat>)
    ensures Val([], BASE) + Pow(BASE, 0) * 0 == Columns(L, R, 0)
  {
  }

  /** The inner loop of vli_mult: the accumulator r2:r01 gains exactly one column. */
  method ScanColumn(n: nat, left: array<u64>, right: array<u64>, k: nat, acc: u128,
                    ghost L: seq<nat>, ghost R: seq<nat>)
    returns (r01: u128, r2: u64)
    requires 0 < n < 0x8000_0000 && k < 2 * n - 1
    requires Slice(left, 0, n) && Slice(right, 0, n)
    requires left[0..n] == L && right[0..n] == R
    ensures r01 + r2 * BASE2 == acc + Column(L, R, k)
  {
    hide Conv;
    r01, r2 := acc, 0;
    var min := if k < n then 0 else k + 1 - n;
    ColumnEnds(L, R, k, n, min);
    var i := min;
    while i <= k && i < n
      invariant min <= i <= k + 1 && i <= n
      invariant r2 <= i
      invariant r01 + r2 * BASE2 == acc + Conv(L, R, k, i)
    {
      var product: u128 := WideProduct(left[i], right[k - i]);
      r01, r2 := Accumulate(r01, r2, product);
      ConvStep(L, R, k, i);
      assert left[i] == L[i] && right[k - i] == R[k - i];
      i := i + 1;
    }
  }

  function WideProduct(x: u64, y: u64): (p: u128)
    ensures p == x * y
  {
    ProductBound(x, y, BASE);
    MulNonNeg(x, y);
    x as int * y as int
  }

  lemma ConvStep(L: seq<nat>, R: seq<nat>, k: nat, i: nat)
    requires i < |L| && 0 <= k - i < |R|
    ensures Conv(L, R, k, i + 1) == Conv(L, R, k, i) + L[i] * R[k - i]
  {
  }

  lemma ColumnEnds(L: seq<nat>, R: seq<nat>, k: nat, n: nat, min: nat)
    requires |L| == |R| == n > 0
    requires min == if k < n then 0 else k + 1 - n
    ensures Conv(L, R, k, min) == 0
    ensures Column(L, R, k) == Conv(L, R, k, if k + 1 < n then k + 1 else n)
  {
    if k >= n { ConvZero(L, R, k, 0, min); }
    if k + 1 > n { ConvZero(L, R, k, n, k + 1); }
  }

  /** Column k of a square reads the same from both ends. */
  lemma {:induction false} ConvSymmetric(L: seq<nat>, k: nat, i: nat)
    requires i <= k + 1
    ensures Column(L, L, k) == Conv(L, L, k, k + 1 - i) + Conv(L, L, k, i)
  {
    if i > 0 {
      ConvSymmetric(L, k, i - 1);
      var j := k + 1 - i;
      assert Conv(L, L, k, j + 1) == Conv(L, L, k, j) + Digit(L, j) * Digit(L, k - j);
      assert k - j == i - 1 && j == k - (i - 1);
      assert Digit(L, j) * Digit(L, k - j) == Digit(L, i - 1) * Digit(L, k - (i - 1));
    }
  }

  /** `r2 += product >> 127; product *= 2` */
  method DoubleTerm(product: u128, r2: u64) returns (product': u128, r2': u64)
    requires r2 < BASE - 1
    ensures product' + r2' * BASE2 == 2 * product + r2 * BASE2
    ensures r2 <= r2' <= r2 + 1
  {
    r2' := r2 + product / 0x8000_0000_0000_0000_0000_0000_0000_0000;
    var twice: int := 2 * product as int;
    product' := if twice >= BASE2 then twice - BASE2 else twice;
  }

  /** What the inner loop of vli_square has gathered before term i: every term
      so far twice, except a middle one that stands alone. */
  ghost function Gathered(L: seq<nat>, k: nat, i: nat): (v: nat)
  {
    if 2 * i <= k + 1 then 2 * Conv(L, L, k, i)
    else Conv(L, L, k, i - 1) + Conv(L, L, k, i)
  }

  lemma GatheredStep(L: seq<nat>, k: nat, i: nat)
    requires 2 * i <= k && k - i < |L|
    ensures Gathered(L, k, i + 1) == Gathered(L, k, i) + (if 2 * i < k then 2 else 1) * (L[i] * L[k - i])
  {
    ConvStep(L, L, k, i);
  }

  lemma GatheredAll(L: seq<nat>, k: nat, i: nat)
    requires k + 1 <= 2 * i <= k + 2
    ensures Gathered(L, k, i) == Column(L, L, k)
  {
    ConvSymmetric(L, k, i);
  }

  /** The inner loop of vli_square. */
  method ScanSquareColumn(n: nat, left: array<u64>, k: nat, acc: u128, ghost L: seq<nat>)
    returns (r01: u128, r2: u64)
    requires 0 < n < 0x8000_0000 && k < 2 * n - 1
    requires Slice(left, 0, n)
    requires left[0..n] == L
    ensures r01 + r2 * BASE2 == acc + Column(L, L, k)
  {
    hide Conv, Gathered, WideProduct;
    r01, r2 := acc, 0;
    var min := if k < n then 0 else k + 1 - n;
    GatheredStart(L, k, n, min);
    var i := min;
    while i <= k && i <= k - i
      invariant min <= i && 2 * min <= k && 2 * i <= k + 2
      invariant r2 <= 2 * i
      invariant r01 + r2 * BASE2 == acc + Gathered(L, k, i)
    {
      assert left[i] == L[i] && left[k - i] == L[k - i];
      var product: u128 := WideProduct(left[i], left[k - i]);
      if i < k - i {
        product, r2 := DoubleTerm(product, r2);
      }
      r01, r2 := Accumulate(r01, r2, product);
      GatheredStep(L, k, i);
      i := i + 1;
    }
    GatheredAll(L, k, i);
  }

  lemma GatheredStart(L: seq<nat>, k: nat, n: nat, min: nat)
    requires |L| == n > 0 && k < 2 * n - 1
    requires min == if k < n then 0 else k + 1 - n
    ensures Gathered(L, k, min) == 0
  {
    ColumnEnds(L, L, k, n, min);
  }

  /** vli_square: result = left^2, exactly; so it agrees with vli_mult(left, left). */
  method Square(n: nat, result: array<u64>, left: array<u64>)
    requires 0 < n < 0x8000_0000
    requires Slice(result, 0, 2 * n) && Slice(left, 0, n)
    requires result != left
    modifies result
    ensures V(result, 0, 2 * n) == old(V(left, 0, n)) * old(V(left, 0, n))
    ensures SameOutside(result, 0, 2 * n)
  {
    hide Val, Pow, Conv, Columns, Truncate;
    ghost var L: seq<nat>, Z: seq<nat> := left[0..n], [];
    ProductStart(L, L);
    var r01: u128, k := 0, 0;
    while k < 2 * n - 1
      invariant 0 <= k <= 2 * n - 1 && |Z| == k
      invariant forall i :: 0 <= i < k ==> result[i] == Z[i]
      invariant left[0..n] == L
      invariant Val(Z, BASE) + Pow(BASE, k) * r01 == Columns(L, L, k)
      invariant SameOutside(result, 0, 2 * n)
    {
      ghost var acc := r01;
      var r2: u64;
      r01, r2 := ScanSquareColumn(n, left, k, r01, L);
      var digit, next := ShiftColumn(r01, r2);
      ColumnStep(L, L, Z, digit, acc, acc + Column(L, L, k), next);
      result[k], r01, Z := digit, next, Z + [digit];
      k := k + 1;
    }
    LastDigit(L, L, Z, r01);
    result[2 * n - 1] := Truncate(r01);
    assert result[0..2 * n] == Z + [r01];
  }
}
