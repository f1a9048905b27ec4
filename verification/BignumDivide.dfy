/** crypto/bn.c: multiplication, shift-and-subtract division and the remainder. */
module BignumDivide {
  import opened Arith
  import opened Bits
  import opened Limbs
  import opened NumberTheory
  import opened Bignum
  import opened BignumShift
  import opened Machine

  /** An addition of magnitudes is exact modulo the capacity. */
  lemma SumCong(v: int, carry: int, x: int)
    requires v + carry * Capacity() == x
    ensures Cong(v, x, Capacity())
  {
    DividesIntro(Capacity(), v - x, -carry);
  }

  /** The product of two words, at weight 256^w. */
  ghost function Term(x: int, y: int, w: nat): (t: int)
  {
    x * y * Pow(BYTE, w)
  }

  /** Row i of the schoolbook product, up to word j of the other factor. */
  ghost function Row(x: int, i: nat, B: seq<nat>, j: nat): (v: int)
    requires j <= |B|
  {
    x * Pow(BYTE, i) * Val(B[..j], BYTE)
  }

  lemma RowStep(x: int, i: nat, B: seq<nat>, j: nat)
    requires j < |B|
    ensures Row(x, i, B, j + 1) == Row(x, i, B, j) + Term(x, B[j], i + j)
  {
    hide Val, Pow;
    ValPrefix(B, j, BYTE);
    PowAdd(BYTE, i, j);
    RowAlgebra(x, Pow(BYTE, i), Pow(BYTE, j), B[j], Val(B[..j], BYTE));
  }

  lemma RowEnds(x: int, i: nat, B: seq<nat>)
    ensures Row(x, i, B, 0) == 0
    ensures Row(x, i, B, |B|) == x * Pow(BYTE, i) * Val(B, BYTE)
  {
    assert B[..0] == [] && B[..|B|] == B;
    ValEmpty(BYTE);
  }

  lemma RowAlgebra(x: int, p: int, q: int, d: int, v: int)
    ensures x * p * (v + d * q) == x * p * v + x * d * (p * q)
  {
    Distrib(x * p, v, d * q);
    Assoc(x * p, d, q);
    Assoc(x, p, d);
    Assoc(x, d, p);
    Assoc(x * d, p, q);
  }

  function ByteProduct(x: byte, y: byte): (p: u32)
    ensures p == x * y
  {
    MulLe(x, y, 255);
    MulNonNeg(x, y);
    x as int * y as int
  }

  /** The body of the inner loop of bignum_mul: add one word product to the row. */
  method AddTerm(x: byte, y: byte, w: nat, row: Bn, tmp: Bn, ghost v: int)
    requires row.Valid() && tmp.Valid() && row != tmp
    requires Cong(row.Mag(), v, Capacity())
    modifies row, tmp
    ensures row.Valid() && tmp.Valid()
    ensures Cong(row.Mag(), v + Term(x, y, w), Capacity())
  {
    hide Val, Pow, Capacity, Cong;
    Init(tmp);
    var intermediate: u32 := ByteProduct(x, y);
    FromInt(tmp, intermediate);
    var out := LshiftWord(tmp, w);
    ghost var t, m, n := Term(x, y, w), tmp.Mag(), row.Mag();
    SumCong(m, out, t);
    var carry := AddAbs(tmp, row, row);
    SumCong(row.Mag(), carry, m + n);
    CongAdd(m, t, n, v, Capacity());
    CongTrans(row.Mag(), m + n, t + v, Capacity());
  }

  /** A term whose weight is at or above the capacity vanishes modulo it. */
  lemma HighTerm(row: int, v: int, x: int, y: int, w: nat)
    requires w >= N
    requires Cong(row, v, Capacity())
    ensures Cong(row, v + Term(x, y, w), Capacity())
  {
    hide Pow, Cong;
    PowAdd(BYTE, N, w - N);
    Assoc(x * y, Pow(BYTE, N), Pow(BYTE, w - N));
    CongShift(v, x * y * Pow(BYTE, w - N), Capacity());
    CongTrans(row, v, v + Term(x, y, w), Capacity());
  }

  /** One row of the schoolbook product, modulo the capacity. */
  method MulRow(a: Bn, b: Bn, i: nat, row: Bn, tmp: Bn)
    requires a.Valid() && b.Valid() && row.Valid() && tmp.Valid() && i < N
    requires row !in {a, b, tmp} && tmp !in {a, b}
    modifies row, tmp
    ensures row.Valid() && tmp.Valid()
    ensures Cong(row.Mag(), a.d[i] * Pow(BYTE, i) * b.Mag(), Capacity())
  {
    hide Val, Capacity, Cong, Term, Row;
    Init(row);
    ghost var x, B: seq<nat> := a.d[i], b.d;
    RowEnds(x, i, B);
    CongRefl(0, Capacity());
    for j := 0 to N
      invariant row.Valid() && tmp.Valid()
      invariant Cong(row.Mag(), Row(x, i, B, j), Capacity())
    {
      RowStep(x, i, B, j);
      if i + j < N {
        AddTerm(a.d[i], b.d[j], i + j, row, tmp, Row(x, i, B, j));
      } else {
        HighTerm(row.Mag(), Row(x, i, B, j), x, B[j], i + j);
      }
    }
  }

  /** bignum_mul: the product, when it fits; always the product modulo the
      capacity in magnitude. */
  method Mul(a: Bn, b: Bn, c: Bn)
    requires a.Valid() && b.Valid() && c.Valid()
    requires c != a && c != b
    modifies c
    ensures c.Valid()
    ensures Cong(c.Mag(), a.Mag() * b.Mag(), Capacity())
    ensures c.Canonical()
    ensures c.Mag() != 0 ==> c.s == a.s * b.s
    ensures a.Mag() * b.Mag() < Capacity() ==> c.Mag() == a.Mag() * b.Mag() && c.Value() == a.Value() * b.Value()
  {
    hide Val, Pow, Capacity, Cong;
    var row := new Bn();
    var tmp := new Bn();
    Init(c);
    ghost var A: seq<nat>, y := a.d, b.Mag();
    ValEmpty(BYTE);
    assert A[..0] == [];
    CongRefl(0, Capacity());
    for i := 0 to N
      invariant c.Valid() && row.Valid() && tmp.Valid()
      invariant Cong(c.Mag(), Val(A[..i], BYTE) * y, Capacity())
    {
      ghost var v := Val(A[..i], BYTE) * y;
      MulRow(a, b, i, row, tmp);
      ghost var m, n, t := c.Mag(), row.Mag(), A[i] * Pow(BYTE, i) * y;
      var carry := AddAbs(c, row, c);
      SumCong(c.Mag(), carry, m + n);
      CongAdd(m, v, n, t, Capacity());
      CongTrans(c.Mag(), m + n, v + t, Capacity());
      ValPrefix(A, i, BYTE);
      Distrib(y, Val(A[..i], BYTE), A[i] * Pow(BYTE, i));
    }
    assert A[..N] == A;
    MulExact(a, b, c);
    var zero := IsZero(c);
    if zero {
      c.s := 1;
    } else {
      c.s := SignProduct(a.s, b.s);
    }
    SignedProduct(a.Mag(), b.Mag());
  }

  function SignProduct(s: Sign, t: Sign): (r: Sign)
    ensures r == s * t
  {
    if s == t then 1 else -1
  }

  lemma SignedProduct(x: int, y: int)
    ensures (-x) * y == -(x * y) && x * (-y) == -(x * y) && (-x) * (-y) == x * y
  {
  }

  lemma MulExact(a: Bn, b: Bn, c: Bn)
    requires a.Valid() && b.Valid() && c.Valid()
    requires Cong(c.Mag(), a.Mag() * b.Mag(), Capacity())
    ensures a.Mag() * b.Mag() < Capacity() ==> c.Mag() == a.Mag() * b.Mag()
  {
    hide Val, Pow, Capacity, Cong;
    MagBound(c);
    MulNonNeg(a.Mag(), b.Mag());
    if a.Mag() * b.Mag() < Capacity() {
      CongUnique(c.Mag(), a.Mag() * b.Mag(), Capacity());
    }
  }

  /** lshift_one_bit, when no bit leaves the top. */
  method LshiftOne(a: Bn)
    requires a.Valid() && 2 * a.Mag() < Capacity()
    modifies a`d
    ensures a.Valid() && a.Mag() == 2 * old(a.Mag())
  {
    hide Val, Pow, Capacity;
    ghost var x := a.Mag();
    assert Pow2(1) == 2;
    var out := LshiftBits(a, 1);
    MagBound(a);
    CarryFixed(a.Mag(), out, Capacity(), 2 * x);
  }

  /** rshift_one_bit */
  method RshiftOne(a: Bn)
    requires a.Valid()
    modifies a`d
    ensures a.Valid() && a.Mag() == old(a.Mag()) / 2
  {
    hide Val;
    assert Pow2(1) == 2;
    var out := RshiftBits(a, 1);
  }

  /** The top bit of the top word tells whether a doubling would overflow. */
  lemma TopWord(d: seq<byte>)
    requires |d| == N
    ensures d[N - 1] >= 128 <==> 2 * Val(d, BYTE) >= Capacity()
  {
    hide Val;
    ValPrefix(d, N - 1, BYTE);
    assert d[..N] == d;
    ValBound(d[..N - 1], BYTE);
    var p := Pow(BYTE, N - 1);
    if d[N - 1] >= 128 {
      MulLe(p, 128, d[N - 1]);
    } else {
      MulLe(p, d[N - 1], 127);
    }
  }

  lemma {:induction false} ValOr(A: seq<byte>, B: seq<byte>, E: seq<byte>)
    requires |A| == |B| == |E|
    requires forall i :: 0 <= i < |A| ==> E[i] == Or(A[i], B[i])
    ensures Val(E, BYTE) == Or(Val(A, BYTE), Val(B, BYTE))
  {
    hide Or;
    if |A| == 0 {
      OrZero(0);
    } else {
      ValOr(A[1..], B[1..], E[1..]);
      Pow2Literals();
      OrSplit(A[0], Val(A[1..], BYTE), B[0], Val(B[1..], BYTE), 8);
    }
  }

  function OrByte(x: byte, y: byte): (r: byte)
    ensures r == Or(x, y)
  {
    Pow2Literals();
    OrBound(x, y, 8);
    Or(x, y)
  }

  /** bignum_or */
  method OrInto(a: Bn, b: Bn, c: Bn)
    requires a.Valid() && b.Valid() && c.Valid()
    modifies c`d
    ensures c.Valid()
    ensures c.Mag() == Or(old(a.Mag()), old(b.Mag()))
  {
    hide Val, Or, OrByte;
    ghost var A, B := a.d, b.d;
    for i := 0 to N
      invariant a.Valid() && b.Valid() && c.Valid()
      invariant forall k :: 0 <= k < i ==> c.d[k] == Or(A[k], B[k])
      invariant forall k :: i <= k < N ==> a.d[k] == A[k]
      invariant forall k :: i <= k < N ==> b.d[k] == B[k]
    {
      c.d := c.d[i := OrByte(a.d[i], b.d[i])];
    }
    ValOr(A, B, c.d);
  }

  /** The division of x by B, with j + 1 quotient bits still to come (j == -1 at
      the end): q is a multiple of 2^(j+1), and the rest t is below 2 * B * 2^j. */
  ghost predicate Dividing(x: nat, B: nat, q: nat, t: nat, cur: nat, den: nat, j: int)
  {
    && x == q * B + t
    && j >= -1
    && (if j == -1 then cur == 0 && t < B
        else cur == Pow2(j) && den == B * Pow2(j) && t < 2 * den && Divides(Pow2(j + 1), q))
  }

  lemma DividingStep(x: nat, B: nat, q: nat, t: nat, cur: nat, den: nat, j: int)
    requires Dividing(x, B, q, t, cur, den, j) && j >= 0
    ensures Or(q, cur) == q + cur
    ensures t >= den ==> Dividing(x, B, q + cur, t - den, cur / 2, den / 2, j - 1)
    ensures t < den ==> Dividing(x, B, q, t, cur / 2, den / 2, j - 1)
  {
    hide Pow2, Divides;
    FreshBit(q, cur, j);
    Distrib(B, q, cur);
    HalfPower(B, j);
  }

  /** The next quotient bit is below every bit already set, so OR adds it. */
  lemma FreshBit(q: nat, cur: nat, j: nat)
    requires cur == Pow2(j) && Divides(Pow2(j + 1), q)
    ensures Or(q, cur) == q + cur
    ensures Divides(Pow2(j), q) && Divides(Pow2(j), q + cur)
  {
    hide Or;
    var m :| q == Pow2(j + 1) * m;
    MultipleNonNeg(Pow2(j + 1), m);
    var n: nat := m;
    assert q == n * Pow2(j + 1);
    OrDisjoint(q, cur, j + 1);
    Assoc(Pow2(j), 2, m);
    DividesIntro(Pow2(j), q, 2 * m);
    DividesSelf(cur);
    DividesAdd(Pow2(j), q, cur);
  }

  lemma HalfPower(B: nat, j: nat)
    ensures j > 0 ==> Pow2(j) / 2 == Pow2(j - 1) && (B * Pow2(j)) / 2 == B * Pow2(j - 1)
                      && B * Pow2(j) == 2 * (B * Pow2(j - 1))
    ensures j == 0 ==> Pow2(j) / 2 == 0 && B * Pow2(j) == B
  {
    if j > 0 { Assoc(2, B, Pow2(j - 1)); }
  }

  lemma MultipleNonNeg(p: int, m: int)
    requires p > 0 && p * m >= 0
    ensures m >= 0
  {
    MulAtLeast(p, m);
  }

  /** The first loop of bignum_div: shift divisor and bit up to the dividend, or
      until another shift would overflow. */
  method Align(current: Bn, denom: Bn, tmp: Bn, ghost B: nat) returns (ghost j: int)
    requires current.Valid() && denom.Valid() && tmp.Valid()
    requires current !in {denom, tmp} && denom != tmp
    requires current.Mag() == 1 && denom.Mag() == B && B > 0
    modifies current, denom
    ensures current.Valid() && denom.Valid()
    ensures Dividing(tmp.Mag(), B, 0, tmp.Mag(), current.Mag(), denom.Mag(), j)
  {
    hide Val, Pow, Capacity;
    var overflow := false;
    ghost var k: nat, x := 0, tmp.Mag();
    assert Pow2(0) == 1;
    MagBound(tmp);
    MagBound(denom);
    var cmp := CmpAbs(denom, tmp);
    while cmp != 1
      invariant current.Valid() && denom.Valid()
      invariant current.Mag() == Pow2(k) && denom.Mag() == B * Pow2(k) && denom.Mag() < Capacity()
      invariant cmp == SignOf(denom.Mag() - x)
      decreases Capacity() - denom.Mag()
    {
      TopWord(denom.d);
      MulAtLeast(B, Pow2(k));
      if denom.d[N - 1] >= 128 {
        overflow := true;
        break;
      }
      MulLe(Pow2(k), 1, B);
      LshiftOne(current);
      LshiftOne(denom);
      Assoc(2, B, Pow2(k));
      k := k + 1;
      cmp := CmpAbs(denom, tmp);
    }
    DividesZero(Pow2(k));
    DividesZero(Pow2(k + 1));
    if !overflow {
      RshiftOne(denom);
      RshiftOne(current);
      if k > 0 { Assoc(2, B, Pow2(k - 1)); }
      j := k - 1;
    } else {
      j := k;
    }
  }

  /** The second loop of bignum_div. */
  method QuotientBits(current: Bn, denom: Bn, tmp: Bn, c: Bn, ghost x: nat, ghost B: nat, ghost j0: int)
    requires current.Valid() && denom.Valid() && tmp.Valid() && c.Valid()
    requires current !in {denom, tmp, c} && denom !in {tmp, c} && tmp != c
    requires Dividing(x, B, c.Mag(), tmp.Mag(), current.Mag(), denom.Mag(), j0)
    modifies current, denom, tmp, c
    ensures c.Valid() && c.s == old(c.s)
    ensures x == c.Mag() * B + tmp.Mag() && tmp.Mag() < B
  {
    hide Val, Dividing, Or;
    ghost var j := j0;
    var zero := IsZero(current);
    DividingBit(x, B, c.Mag(), tmp.Mag(), current.Mag(), denom.Mag(), j);
    while !zero
      invariant current.Valid() && denom.Valid() && tmp.Valid() && c.Valid()
      invariant Dividing(x, B, c.Mag(), tmp.Mag(), current.Mag(), denom.Mag(), j)
      invariant zero <==> j == -1
      invariant j >= -1 && c.s == old(c.s)
      decreases j
    {
      DividingStep(x, B, c.Mag(), tmp.Mag(), current.Mag(), denom.Mag(), j);
      var cmp := CmpAbs(tmp, denom);
      if cmp != -1 {
        SubAbsExact(tmp, denom, tmp);
        OrInto(c, current, c);
      }
      RshiftOne(current);
      RshiftOne(denom);
      j := j - 1;
      zero := IsZero(current);
      DividingBit(x, B, c.Mag(), tmp.Mag(), current.Mag(), denom.Mag(), j);
    }
    DividingEnd(x, B, c.Mag(), tmp.Mag(), current.Mag(), denom.Mag(), j);
  }

  lemma DividingBit(x: nat, B: nat, q: nat, t: nat, cur: nat, den: nat, j: int)
    requires Dividing(x, B, q, t, cur, den, j)
    ensures j >= -1 && (cur == 0 <==> j == -1)
  {
  }

  lemma DividingEnd(x: nat, B: nat, q: nat, t: nat, cur: nat, den: nat, j: int)
    requires Dividing(x, B, q, t, cur, den, j) && j == -1
    ensures x == q * B + t && t < B
  {
  }

  /** bignum_div: the quotient of the magnitudes, for every nonzero divisor. */
  method Div(a: Bn, b: Bn, c: Bn)
    requires a.Valid() && b.Valid() && c.Valid()
    requires c != a && c != b
    requires b.Mag() > 0
    modifies c
    ensures c.Valid()
    ensures c.Mag() == a.Mag() / b.Mag()
    ensures c.s == a.s * b.s
  {
    hide Val, Dividing;
    ghost var x, y := a.Mag(), b.Mag();
    var current := new Bn();
    var denom := new Bn();
    var tmp := new Bn();
    FromInt(current, 1);
    Assign(denom, b);
    Assign(tmp, a);
    var j := Align(current, denom, tmp, y);
    Init(c);
    QuotientBits(current, denom, tmp, c, x, y, j);
    DivModUnique(x, y, c.Mag(), tmp.Mag());
    c.s := SignProduct(a.s, b.s);
  }

  /** What bignum_divmod leaves in d for a positive modulus m: the remainder of
      the value, except that a negative zero is taken once round to m itself. */
  ghost function Residue(s: Sign, x: nat, m: nat): (r: int)
    requires m > 0
  {
    if s == -1 && x == 0 then m else (if s == 1 then x else 0 - x) % m
  }

  /** The result is a proper residue exactly when the dividend is canonical. */
  lemma ResidueProper(s: Sign, x: nat, m: nat)
    requires m > 0
    ensures 0 <= Residue(s, x, m) < m <==> !(s == -1 && x == 0)
  {
  }

  /** The sign of the remainder before b is added to it. */
  ghost function RemainderSign(s: Sign, x: nat, m: nat): (r: Sign)
    requires m > 0
  {
    if s == -1 && (x % m != 0 || x == 0) then -1 else 1
  }

  /** Whether the last loop of bignum_divmod ends: it adds b while the sign is negative. */
  ghost predicate Ends(s: Sign, x: nat, t: Sign, m: nat)
    requires m > 0
  {
    t == 1 || s == 1 || (x % m == 0 && x != 0)
  }

  /** The number after n turns of that loop. */
  ghost function AfterTurns(d: Num, b: Num, n: nat): (r: Num)
  {
    if n == 0 then d else Sum(AfterTurns(d, b, n - 1), b)
  }

  ghost predicate Stops(d: Num, b: Num)
  {
    exists n: nat :: AfterTurns(d, b, n).s == 1
  }

  /** The loop ends if and only if b is positive, or a is, or b divides a and a is not
      zero; otherwise the sign stays negative forever. */
  lemma DivModEnds(s: Sign, x: nat, t: Sign, m: nat)
    requires 0 < m < Capacity()
    ensures Stops(Num(RemainderSign(s, x, m), x % m), Num(t, m)) <==> Ends(s, x, t, m)
  {
    hide Capacity;
    var d, b := Num(RemainderSign(s, x, m), x % m), Num(t, m);
    QuotientTimes(x, m);
    if d.s == 1 {
      assert AfterTurns(d, b, 0).s == 1;
    } else if t == 1 {
      assert AfterTurns(d, b, 0) == d && AfterTurns(d, b, 1).s == 1;
    } else {
      forall n: nat ensures AfterTurns(d, b, n).s == -1 { StaysNegative(d, b, n); }
    }
  }

  lemma {:induction false} StaysNegative(d: Num, b: Num, n: nat)
    requires d.s == -1 && b.s == -1
    ensures AfterTurns(d, b, n).s == -1
  {
    hide Capacity;
    if n != 0 { StaysNegative(d, b, n - 1); }
  }

  /** bignum_divmod, whenever it ends. */
  method DivMod(a: Bn, b: Bn, c: Bn, d: Bn)
    requires a.Valid() && b.Valid() && c.Valid() && d.Valid()
    requires c !in {a, b, d} && d !in {a, b}
    requires b.Mag() > 0 && Ends(a.s, a.Mag(), b.s, b.Mag())
    modifies c, d
    ensures c.Valid() && c.Mag() == a.Mag() / b.Mag() && c.s == a.s * b.s
    ensures d.Valid() && d.s == 1
    ensures d.Value() == if b.s == 1 then Residue(a.s, a.Mag(), b.Mag()) else a.Mag() % b.Mag()
  {
    hide Val, Capacity, Cong, Sum, Residue;
    ghost var x, m := a.Mag(), b.Mag();
    var tmp := new Bn();
    Div(a, b, c);
    QuotientTimes(x, m);
    MagBound(a);
    Mul(c, b, tmp);
    SignSquare(a.s, b.s);
    RemainderSigned(a.s, x, m, tmp);
    Sub(a, tmp, d);
    Complete(a, b, d, x, m);
  }

  lemma SignSquare(s: Sign, t: Sign)
    ensures s * t * t == s
  {
  }

  lemma QuotientTimes(x: nat, m: nat)
    requires m > 0
    ensures x == (x / m) * m + x % m && 0 <= x % m < m
    ensures 0 <= (x / m) * m <= x
  {
    DivNonNeg(x, m);
    MulNonNeg(x / m, m);
  }

  lemma RemainderSigned(s: Sign, x: nat, m: nat, tmp: Bn)
    requires m > 0 && tmp.Valid() && x < Capacity()
    requires tmp.Mag() == (x / m) * m && tmp.Canonical() && (tmp.Mag() != 0 ==> tmp.s == s)
    ensures Sum(Num(s, x), Negated(tmp.Number())) == Num(RemainderSign(s, x, m), x % m)
  {
    hide Val, Capacity;
    QuotientTimes(x, m);
  }

  /** The last loop of bignum_divmod: add b while the sign is negative. */
  method Complete(a: Bn, b: Bn, d: Bn, ghost x: nat, ghost m: nat)
    requires b.Valid() && d.Valid() && b != d && d != a
    requires b.Mag() == m && m > 0 && a.Mag() == x && Ends(a.s, x, b.s, m)
    requires d.Mag() == x % m && d.s == RemainderSign(a.s, x, m)
    modifies d
    ensures d.Valid() && d.s == 1
    ensures d.Value() == if b.s == 1 then Residue(a.s, x, m) else x % m
  {
    hide Val, Capacity;
    MagBound(b);
    ResidueSplit(x, m);
    ghost var r := d.Mag();
    while d.s < 0
      invariant d.Valid()
      invariant d.s == -1 ==> a.s == -1 && b.s == 1 && d.Mag() == r && (r != 0 || x == 0)
      invariant d.s == 1 ==> d.Value() == if b.s == 1 then Residue(a.s, x, m) else x % m
      decreases if d.s < 0 then 1 else 0
    {
      Add(d, b, d);
    }
  }

  lemma ResidueSplit(x: nat, m: nat)
    requires m > 0
    ensures 0 <= x % m < m
    ensures Residue(1, x, m) == x % m
    ensures x % m != 0 ==> Residue(-1, x, m) == m - x % m
    ensures x % m == 0 && x != 0 ==> Residue(-1, x, m) == 0
    ensures x == 0 ==> x % m == 0 && Residue(-1, x, m) == m
  {
    QuotientTimes(x, m);
    var q, r := x / m, x % m;
    if r != 0 {
      assert 0 - x == m * (-q - 1) + (m - r) by { Distrib(m, -q, -1); }
      DivModUnique(0 - x, m, -q - 1, m - r);
    } else {
      DivModUnique(0 - x, m, -q, 0);
      DivModUnique(0, m, 0, 0);
    }
  }

  /** bignum_mod */
  method Mod(a: Bn, b: Bn, c: Bn)
    requires a.Valid() && b.Valid() && c.Valid()
    requires c !in {a, b}
    requires b.Mag() > 0 && Ends(a.s, a.Mag(), b.s, b.Mag())
    modifies c
    ensures c.Valid() && c.s == 1
    ensures c.Value() == if b.s == 1 then Residue(a.s, a.Mag(), b.Mag()) else a.Mag() % b.Mag()
  {
    hide Val, Residue;
    var tmp := new Bn();
    DivMod(a, b, tmp, c);
  }

  /** bignum_div(-1, 2) is a negative zero, and bignum_mod of it by 3 gives 3. */
  method NegativeZeroQuotient() returns (r: Bn)
    ensures fresh(r) && r.Valid() && r.Value() == 3
  {
    hide Val;
    var a := new Bn();
    var b := new Bn();
    var c := new Bn();
    r := new Bn();
    FromInt(a, 1);
    a.s := -1;
    FromInt(b, 2);
    Div(a, b, c);
    FromInt(b, 3);
    Mod(c, b, r);
  }
}
