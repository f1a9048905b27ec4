/** crypto/bn.c: bignum_isqrt, a bisection whose squares are cut to N bytes. */
module BignumRoot {
  import opened Arith
  import opened Bits
  import opened Limbs
  import opened NumberTheory
  import opened Machine
  import opened Bignum
  import opened BignumShift
  import opened BignumDivide

  /** A run of digits 255 turns over, and the digit above it goes up by one. */
  lemma {:induction false} TurnOver(s: seq<nat>, t: seq<nat>, i: nat)
    requires i < |s| == |t|
    requires forall k :: 0 <= k < i ==> s[k] == 255 && t[k] == 0
    requires t[i] == s[i] + 1 && s[i + 1..] == t[i + 1..]
    ensures Val(t, BYTE) == Val(s, BYTE) + 1
    decreases i
  {
    if i != 0 {
      assert s[1..][i..] == s[i + 1..] && t[1..][i..] == t[i + 1..];
      TurnOver(s[1..], t[1..], i - 1);
    }
  }

  lemma {:induction false} AllTop(s: seq<byte>)
    requires forall k :: 0 <= k < |s| ==> s[k] == 255
    ensures Val(s, BYTE) == Pow(BYTE, |s|) - 1
  {
    if |s| != 0 { AllTop(s[1..]); }
  }

  /** bignum_inc: the magnitude, modulo the capacity. */
  method Inc(n: Bn)
    requires n.Valid()
    modifies n`d
    ensures n.Valid()
    ensures n.Mag() == if old(n.Mag()) + 1 < Capacity() then old(n.Mag()) + 1 else 0
  {
    hide Val, Pow;
    ghost var s := n.d;
    var i := 0;
    while i < N
      invariant 0 <= i <= N && n.Valid()
      invariant forall k :: 0 <= k < i ==> s[k] == 255 && n.d[k] == 0
      invariant n.d[i..] == s[i..]
    {
      var tmp: int := n.d[i];
      assert tmp == s[i..][0] == s[i];
      var res: byte := (tmp + 1) % 256;
      assert n.d[i + 1..] == s[i..][1..] == s[i + 1..];
      n.d := n.d[i := res];
      if res > tmp {
        TurnOver(s, n.d, i);
        MagBound(n);
        return;
      }
      i := i + 1;
    }
    AllTop(s);
    ValZeros(n.d, BYTE);
  }

  /** bignum_dec: the magnitude, modulo the capacity. */
  method Dec(n: Bn)
    requires n.Valid()
    modifies n`d
    ensures n.Valid()
    ensures n.Mag() == if old(n.Mag()) > 0 then old(n.Mag()) - 1 else Capacity() - 1
  {
    hide Val, Pow;
    ghost var s := n.d;
    var i := 0;
    while i < N
      invariant 0 <= i <= N && n.Valid()
      invariant forall k :: 0 <= k < i ==> s[k] == 0 && n.d[k] == 255
      invariant n.d[i..] == s[i..]
    {
      var tmp: int := n.d[i];
      assert tmp == s[i..][0] == s[i];
      var res: byte := (tmp + 255) % 256;
      assert n.d[i + 1..] == s[i..][1..] == s[i + 1..];
      n.d := n.d[i := res];
      if !(res > tmp) {
        TurnOver(n.d, s, i);
        return;
      }
      i := i + 1;
    }
    AllTop(n.d);
    ValZeros(s, BYTE);
  }

  /** bignum_isqrt on magnitudes: low and high close in on each other, by the square of
      their middle as far as it fits. */
  ghost function Bisected(a: nat, low: nat, high: nat): (r: nat)
    ensures low <= high ==> low <= r <= high
    decreases high - low
  {
    if high <= low then low
    else if Cut(Middle(low, high)) > a then Bisected(a, low, Middle(low, high) - 1)
    else Bisected(a, Middle(low, high), high)
  }

  function Middle(low: nat, high: nat): (m: nat)
    requires low <= high
    ensures low < m <= high + 1 && (low < high ==> m <= high)
  {
    low + (high - low) / 2 + 1
  }

  /** A square as bignum_mul returns it. */
  ghost function Cut(m: nat): (r: nat)
  {
    PowPositive(BYTE, N);
    (m * m) % Capacity()
  }

  ghost function Isqrt(a: nat): (r: nat)
    ensures r <= a
  {
    Bisected(a, 0, a)
  }

  /** r is the integer square root of a. */
  ghost predicate Root(a: nat, r: nat)
  {
    r * r <= a < (r + 1) * (r + 1)
  }

  lemma CutSmall(m: nat)
    requires m * m < Capacity()
    ensures Cut(m) == m * m
  {
    hide Pow;
    DivModUnique(m * m, Capacity(), 0, m * m);
  }

  lemma SquareLe(x: nat, y: nat)
    requires x <= y
    ensures x * x <= y * y
  {
    MulLe(x, x, y);
    MulLe(y, x, y);
  }

  /** While no square is cut, the root stays between low and high. */
  lemma {:induction false} BisectedRoot(a: nat, low: nat, high: nat)
    requires low <= high && high * high < Capacity()
    requires low * low <= a < (high + 1) * (high + 1)
    ensures Root(a, Bisected(a, low, high))
    decreases high - low
  {
    hide Capacity, Cut;
    if low < high {
      var m := Middle(low, high);
      SquareLe(m, high);
      SquareLe(m - 1, high);
      CutSmall(m);
      if m * m > a {
        BisectedRoot(a, low, m - 1);
      } else {
        BisectedRoot(a, m, high);
      }
    }
  }

  /** The first number that fails: twice the square root of the capacity, less two. */
  ghost function Limit(): (b: nat)
  {
    PowPositive(16, N);
    2 * (Pow(16, N) - 1)
  }

  lemma {:induction false} CapacitySquare(n: nat)
    ensures Pow(16, n) * Pow(16, n) == Pow(BYTE, n)
    ensures Pow(16, n) >= 1
  {
    if n != 0 {
      CapacitySquare(n - 1);
      var p := Pow(16, n - 1);
      assert Pow(16, n) == 16 * p;
      Assoc(16 * p, 16, p);
      Assoc(16, 16, p);
      Assoc(p, 16, p);
      assert (16 * p) * (16 * p) == 256 * (p * p);
    }
  }

  lemma RootBelow(a: nat)
    requires a < Limit()
    ensures Root(a, Isqrt(a))
  {
    hide Pow, Cut, Capacity;
    if a >= 1 {
      var p, q := Pow(16, N), a / 2;
      CapacitySquare(N);
      assert q + 1 < p;
      SquareLe(q + 1, p - 1);
      DistribSub(p - 1, p, 1);
      DistribSub(p, p, 1);
      assert (q + 1) * (q + 1) < p * p == Capacity() by { CapacityIs(); }
      CutSmall(q + 1);
      SquareLe(q, q + 1);
      Distrib(q + 1, q, 1);
      if a == 1 {
        assert Isqrt(1) == Bisected(1, 1, 1) == 1;
      } else {
        assert q * q >= q by { MulLe(q, 1, q); }
        assert (q + 1) * (q + 1) > a;
        BisectedRoot(a, 0, q);
      }
    }
  }

  lemma CapacityIs()
    ensures Capacity() == Pow(BYTE, N)
  {
  }

  /** There the first square is cut to zero, and everything below is given up. */
  lemma RootFails()
    ensures Limit() < Capacity() && !Root(Limit(), Isqrt(Limit()))
  {
    hide Pow, Bisected;
    var p, a := Pow(16, N), Limit();
    CapacitySquare(N);
    LimitLarge();
    FirstStep(a);
    assert Cut(p) == 0 by { DivModUnique(p * p, Capacity(), 1, 0); }
    var r := Isqrt(a);
    SquareLe(p, r);
    MulLe(p, 2, p);
  }

  lemma LimitLarge()
    ensures Pow(16, N) >= 2
  {
    PowPositive(16, N - 1);
  }

  lemma FirstStep(a: nat)
    requires a >= 1 && Cut(a / 2 + 1) <= a
    ensures Isqrt(a) >= a / 2 + 1
  {
    hide Cut;
  }

  /** bignum_isqrt gives the integer square root of every number below a bound if and
      only if the bound is at most Limit(). */
  lemma RootExact(bound: nat)
    ensures (forall a: nat :: a < bound ==> Root(a, Isqrt(a))) <==> bound <= Limit()
  {
    hide Root, Isqrt, Limit;
    if bound <= Limit() {
      forall a: nat | a < bound ensures Root(a, Isqrt(a)) { RootBelow(a); }
    } else {
      RootFails();
    }
  }

  /** No middle whose square is cut looks small enough: the comparison goes on with the
      lower half, as it would with the square itself. */
  ghost predicate Clear(a: nat, low: nat, high: nat)
    decreases high - low
  {
    high <= low ||
    var m := Middle(low, high);
    if m * m >= Capacity() then Cut(m) > a && Clear(a, low, m - 1)
    else if m * m > a then Clear(a, low, m - 1)
    else Clear(a, m, high)
  }

  lemma CutBelow(m: nat)
    ensures Cut(m) <= m * m
  {
    hide Pow;
    var c := Capacity();
    PowPositive(BYTE, N);
    MulNonNeg(m, m);
    DivNonNeg(m * m, c);
    MulNonNeg(c, m * m / c);
  }

  lemma {:induction false} ClearRoot(a: nat, low: nat, high: nat)
    requires a < Capacity() && low <= high
    requires low * low <= a < (high + 1) * (high + 1)
    ensures Root(a, Bisected(a, low, high)) <==> Clear(a, low, high)
    decreases high - low
  {
    hide Capacity, Cut;
    if low < high {
      var m := Middle(low, high);
      CutBelow(m);
      if m * m < Capacity() { CutSmall(m); }
      if Cut(m) > a {
        ClearRoot(a, low, m - 1);
      } else if m * m <= a {
        ClearRoot(a, m, high);
      } else {
        SquareLe(m, Bisected(a, m, high));
      }
    }
  }

  /** bignum_isqrt gives the integer square root of a number if and only if no square
      that does not fit is taken for one that is small enough. */
  lemma RootWhen(a: nat)
    requires a < Capacity()
    ensures Root(a, Isqrt(a)) <==> Clear(a, 0, a)
  {
    MulNonNeg(a, a);
    Distrib(a + 1, a, 1);
    ClearRoot(a, 0, a);
  }

  /** The numbers that bignum_isqrt works on, with the middle one set for the next turn. */
  ghost predicate Bracket(a: nat, low: nat, high: nat, mid: nat)
  {
    low <= high <= a && (low < high ==> mid == Middle(low, high))
  }

  /** `mid * mid > a` as the loop finds out. */
  method TooLarge(mid: Bn, tmp: Bn, a: Bn) returns (large: bool)
    requires mid.Valid() && tmp.Valid() && a.Valid() && tmp !in {mid, a} && mid.s == 1 && a.s == 1
    modifies tmp
    ensures tmp.Valid() && large == (Cut(mid.Mag()) > a.Mag())
  {
    hide Val, Pow, Capacity, Cong;
    Mul(mid, mid, tmp);
    CutCong(tmp.Mag(), mid.Mag());
    MagBound(tmp);
    var c := Cmp(tmp, a);
    large := c > 0;
  }

  lemma CutCong(x: nat, m: nat)
    requires Cong(x, m * m, Capacity())
    ensures x < Capacity() ==> x == Cut(m)
  {
    hide Pow, Cong;
    if x < Capacity() {
      CongSym(x, m * m, Capacity());
      CongMod(m * m, x, Capacity());
    }
  }

  /** The middle of low and high, for the next turn. */
  method Halfway(low: Bn, high: Bn, mid: Bn)
    requires low.Valid() && high.Valid() && mid.Valid() && mid !in {low, high} && low.Mag() <= high.Mag()
    modifies mid`d
    ensures mid.Valid() && (low.Mag() < high.Mag() ==> mid.Mag() == Middle(low.Mag(), high.Mag()))
  {
    hide Val, Pow, Capacity;
    SubAbsExact(high, low, mid);
    RshiftOne(mid);
    ghost var h := mid.Mag();
    var carry := AddAbs(low, mid, mid);
    MagBound(high);
    MagBound(mid);
    CarryFixed(mid.Mag(), carry, Capacity(), low.Mag() + h);
    Inc(mid);
  }

  /** One turn of the loop. */
  method BisectStep(a: Bn, low: Bn, high: Bn, mid: Bn, tmp: Bn)
    requires a.Valid() && low.Valid() && high.Valid() && mid.Valid() && tmp.Valid()
    requires a !in {low, high, mid, tmp} && low !in {high, mid, tmp} && high !in {mid, tmp} && mid != tmp
    requires a.s == low.s == high.s == mid.s == 1
    requires Bracket(a.Mag(), low.Mag(), high.Mag(), mid.Mag()) && low.Mag() < high.Mag()
    modifies low, high, mid, tmp
    ensures low.Valid() && high.Valid() && mid.Valid() && tmp.Valid() && low.s == high.s == mid.s == 1
    ensures Bracket(a.Mag(), low.Mag(), high.Mag(), mid.Mag())
    ensures Bisected(a.Mag(), low.Mag(), high.Mag()) == Bisected(a.Mag(), old(low.Mag()), old(high.Mag()))
    ensures high.Mag() - low.Mag() < old(high.Mag() - low.Mag())
  {
    hide Val, Pow, Capacity, Cut;
    var large := TooLarge(mid, tmp, a);
    if large {
      Assign(high, mid);
      Dec(high);
    } else {
      Assign(low, mid);
    }
    Halfway(low, high, mid);
  }

  /** bignum_isqrt */
  method SquareRoot(a: Bn, b: Bn)
    requires a.Valid() && b.Valid()
    modifies b
    ensures b.Valid() && b.s == 1
    ensures b.Mag() == if old(a.s) == 1 then Isqrt(old(a.Mag())) else 0
    ensures old(a.s) == 1 ==> (Root(old(a.Mag()), b.Mag()) <==> Clear(old(a.Mag()), 0, old(a.Mag())))
    ensures old(a.s) == 1 && old(a.Mag()) < Limit() ==> Root(old(a.Mag()), b.Mag())
  {
    hide Val, Pow, Capacity, Bisected, Root, Limit, Clear;
    ghost var x := a.Mag();
    var low := new Bn();
    var high := new Bn.Copy(a);
    var mid := new Bn();
    var tmp := new Bn();
    assert Pow2(1) == 2;
    Rshift(high, mid, 1);
    Inc(mid);
    MagBound(a);
    var c := Cmp(high, low);
    while c > 0
      modifies low, high, mid, tmp
      invariant low.Valid() && high.Valid() && mid.Valid() && tmp.Valid()
      invariant low.s == 1 && (a.s == 1 ==> high.s == mid.s == 1)
      invariant a.s == 1 ==> Bracket(x, low.Mag(), high.Mag(), mid.Mag())
      invariant a.s == 1 ==> Bisected(x, low.Mag(), high.Mag()) == Isqrt(x)
      invariant a.s == 1 ==> c == SignOf(high.Mag() - low.Mag())
      invariant a.s != 1 ==> c <= 0 && low.Mag() == 0
      decreases high.Mag() - low.Mag()
    {
      BisectStep(a, low, high, mid, tmp);
      c := Cmp(high, low);
    }
    if a.s == 1 {
      Met(x, low.Mag());
      RootWhen(x);
      if x < Limit() { RootBelow(x); }
    }
    Assign(b, low);
  }

  lemma Met(a: nat, low: nat)
    ensures Bisected(a, low, low) == low
  {
  }
}
