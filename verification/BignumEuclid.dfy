/** The binary extended Euclidean algorithm of bignum_inv_mod (crypto/bn.c) on numbers
    as the arrays hold them, sums that do not fit included: what a run computes, when
    it is the inverse, and an input for which it is not. */
module BignumEuclid {
  import opened Arith
  import opened Bits
  import opened Limbs
  import opened NumberTheory
  import opened Bignum

  ghost predicate Coprime(x: int, y: int)
  {
    forall d :: Divides(d, x) && Divides(d, y) ==> Divides(d, 1)
  }

  lemma MulParity(a: int, b: int)
    ensures (a * b) % 2 == 1 <==> a % 2 == 1 && b % 2 == 1
  {
    var h, k := a / 2, b / 2;
    assert a == 2 * h + a % 2 && b == 2 * k + b % 2;
    Distrib(b, 2 * h, a % 2);
    Assoc(2, h, b);
    assert a * b == 2 * (h * b) + (a % 2) * b;
  }

  /** When t is even and x, y are not both, one odd coefficient means that both
      become even after adding y and subtracting x. */
  lemma CoefficientParity(t: int, c1: int, c2: int, x: int, y: int)
    requires t == c1 * x + c2 * y && t % 2 == 0
    requires x % 2 == 1 || y % 2 == 1
    requires c1 % 2 == 1 || c2 % 2 == 1
    ensures (c1 + y) % 2 == 0 && (c2 - x) % 2 == 0
  {
    MulParity(c1, x);
    MulParity(c2, y);
    ParityCases(c1 * x, c2 * y, c1, c2, x, y);
  }

  lemma ParityCases(p: int, q: int, c1: int, c2: int, x: int, y: int)
    requires (p + q) % 2 == 0
    requires p % 2 == 1 <==> c1 % 2 == 1 && x % 2 == 1
    requires q % 2 == 1 <==> c2 % 2 == 1 && y % 2 == 1
    requires x % 2 == 1 || y % 2 == 1
    requires c1 % 2 == 1 || c2 % 2 == 1
    ensures (c1 + y) % 2 == 0 && (c2 - x) % 2 == 0
  {
  }

  /** The coefficients after one halving. */
  function Half1(c1: int, c2: int, y: int): (h: int)
  {
    if c1 % 2 == 1 || c2 % 2 == 1 then (c1 + y) / 2 else c1 / 2
  }

  function Half2(c1: int, c2: int, x: int): (h: int)
  {
    if c1 % 2 == 1 || c2 % 2 == 1 then (c2 - x) / 2 else c2 / 2
  }

  lemma HalfCombination(t: int, c1: int, c2: int, x: int, y: int)
    requires t == c1 * x + c2 * y && t % 2 == 0
    requires x % 2 == 1 || y % 2 == 1
    ensures t / 2 == Half1(c1, c2, y) * x + Half2(c1, c2, x) * y
  {
    var h1, h2 := Half1(c1, c2, y), Half2(c1, c2, x);
    if c1 % 2 == 1 || c2 % 2 == 1 {
      CoefficientParity(t, c1, c2, x, y);
      assert 2 * h1 == c1 + y && 2 * h2 == c2 - x;
      Distrib(x, c1, y);
      DistribSub(y, c2, x);
    } else {
      assert 2 * h1 == c1 && 2 * h2 == c2;
    }
    Assoc(2, h1, x);
    Assoc(2, h2, y);
  }

  ghost predicate Within(v: int, b: int) { -b <= v <= b }

  ghost function Room(c: nat, y: nat): (k: int) { (c + 1) * y }

  lemma RoomNext(c: nat, y: nat)
    ensures Room(c + 1, y) == Room(c, y) + y
  {
    Distrib(y, c + 1, 1);
  }

  /** One side of the computation, after c halvings on both sides together: t is
      c1 * x + c2 * y, with coefficients of at most c + 1 times y, or twice that
      while t is still even. */
  ghost predicate Side(x: nat, y: nat, c: nat, t: nat, c1: int, c2: int)
  {
    && t > 0
    && t == c1 * x + c2 * y
    && Within(c1, if t % 2 == 0 then 2 * Room(c, y) else Room(c, y))
    && Within(c2, if t % 2 == 0 then 2 * Room(c, y) else Room(c, y))
  }

  /** The two sides are coprime, and every halving has taken a factor two out of
      their product. */
  ghost predicate Pair(x: nat, y: nat, c: nat, t: nat, o: nat)
  {
    t * o * Pow2(c) <= x * y && Coprime(t, o)
  }

  lemma SideLater(x: nat, y: nat, c: nat, t: nat, c1: int, c2: int)
    requires Side(x, y, c, t, c1, c2)
    ensures Side(x, y, c + 1, t, c1, c2)
  {
    hide Room;
    RoomNext(c, y);
  }

  lemma SideHalve(x: nat, y: nat, c: nat, t: nat, c1: int, c2: int)
    requires Side(x, y, c, t, c1, c2) && t % 2 == 0
    requires x % 2 == 1 || y % 2 == 1
    requires x < y
    ensures Side(x, y, c + 1, t / 2, Half1(c1, c2, y), Half2(c1, c2, x))
  {
    hide Room;
    HalfCombination(t, c1, c2, x, y);
    RoomNext(c, y);
  }

  lemma CoprimeHalve(t: nat, o: nat)
    requires Coprime(t, o) && t % 2 == 0
    ensures Coprime(t / 2, o)
  {
    forall d | Divides(d, t / 2) && Divides(d, o) ensures Divides(d, 1) {
      DividesMul(d, t / 2, 2);
    }
  }

  lemma PairHalve(x: nat, y: nat, c: nat, t: nat, o: nat)
    requires Pair(x, y, c, t, o) && t % 2 == 0
    ensures Pair(x, y, c + 1, t / 2, o)
  {
    hide Coprime;
    var h, p := t / 2, Pow2(c);
    assert t == 2 * h;
    Assoc(2, h, o);
    Assoc(h * o, 2, p);
    CoprimeHalve(t, o);
  }

  lemma PairSwap(x: nat, y: nat, c: nat, t: nat, o: nat)
    requires Pair(x, y, c, t, o)
    ensures Pair(x, y, c, o, t)
  {
  }

  /** Both odd: the smaller is subtracted from the larger. */
  lemma SideSubtract(x: nat, y: nat, c: nat, t: nat, c1: int, c2: int, o: nat, e1: int, e2: int)
    requires Side(x, y, c, t, c1, c2) && Side(x, y, c, o, e1, e2)
    requires t % 2 == 1 && o % 2 == 1 && t > o
    ensures Side(x, y, c, t - o, c1 - e1, c2 - e2)
  {
    hide Room;
    DistribSub(x, c1, e1);
    DistribSub(y, c2, e2);
  }

  lemma CoprimeSubtract(t: nat, o: nat)
    requires Coprime(t, o) && t >= o
    ensures Coprime(t - o, o)
  {
    forall d | Divides(d, t - o) && Divides(d, o) ensures Divides(d, 1) {
      DividesAdd(d, t - o, o);
    }
  }

  lemma PairSubtract(x: nat, y: nat, c: nat, t: nat, o: nat)
    requires Pair(x, y, c, t, o) && t > o
    ensures Pair(x, y, c, t - o, o)
  {
    hide Coprime;
    MulLe(o, t - o, t);
    MulLe(Pow2(c), (t - o) * o, t * o);
    CoprimeSubtract(t, o);
  }

  /** Coprime and equal means one: the coefficient found is the inverse. */
  lemma CoprimeMeets(t: nat, c1: int, c2: int, x: nat, y: nat)
    requires Coprime(t, t) && t > 0 && t == c1 * x + c2 * y
    ensures Cong(c1 * x, 1, y)
  {
    DividesSelf(t);
    DividesBound(t, 1);
    DividesIntro(y, c1 * x - 1, -c2);
  }

  /** Enough headroom: (4 * bits + 4) * y within the capacity. */
  ghost predicate Headroom(y: nat)
  {
    (4 * BitCount(y) + 4) * y <= Capacity()
  }

  /** There are fewer halvings than twice the bits of the modulus. */
  lemma HalvingsBounded(x: nat, y: nat, c: nat, t: nat, o: nat)
    requires Pair(x, y, c, t, o) && t > 0 && o > 0 && x < y
    ensures c < 2 * BitCount(y)
  {
    hide Coprime;
    var b, p := BitCount(y), Pow2(c);
    MulAtLeast(t, o);
    MulAtLeast(p, t * o);
    BitCountBound(y);
    ProductBound(x, y, Pow2(b));
    Pow2Add(b, b);
    if c >= 2 * b { Pow2Monotone(2 * b, c); }
  }

  /** Coefficients, and sums with them, stay inside the arrays. */
  lemma SideFits(x: nat, y: nat, c: nat, t: nat, c1: int, c2: int)
    requires Side(x, y, c, t, c1, c2) && Headroom(y) && c < 2 * BitCount(y) && x < y
    ensures Within(c1, 2 * Room(c, y)) && Within(c2, 2 * Room(c, y))
    ensures 2 * Room(c, y) + y < Capacity()
  {
    hide BitCount;
    var b := BitCount(y);
    MulNonNeg(c + 1, y);
    MulLe(y, 2 * (c + 1) + 1, 4 * b + 1);
    Distrib(y, 4 * b + 1, 3);
    Distrib(y, 2 * (c + 1), 1);
    Assoc(2, c + 1, y);
  }

  /** tu with u1 and u2, or tv with v1 and v2. */
  datatype Row = Row(t: nat, c1: Num, c2: Num)

  datatype Rows = Rows(u: Row, v: Row)

  /** bignum_rshift by one bit. */
  function Half(a: Num): (h: Num)
  {
    Num(a.s, a.m / 2)
  }

  ghost function Difference(a: Num, b: Num): (c: Num)
  {
    Sum(a, Negated(b))
  }

  predicate OddCoefficient(r: Row)
  {
    r.c1.m % 2 == 1 || r.c2.m % 2 == 1
  }

  /** The body of the loops that halve tu or tv with its coefficients. */
  ghost function Halved(r: Row, x: nat, y: nat): (h: Row)
  {
    if OddCoefficient(r) then Row(r.t / 2, Half(Sum(r.c1, Num(1, y))), Half(Difference(r.c2, Num(1, x))))
    else Row(r.t / 2, Half(r.c1), Half(r.c2))
  }

  ghost function MadeOdd(r: Row, x: nat, y: nat): (o: Row)
    requires r.t > 0
    ensures 0 < o.t <= r.t && o.t % 2 == 1
    decreases r.t
  {
    if r.t % 2 == 1 then r else MadeOdd(Halved(r, x, y), x, y)
  }

  ghost function Less(r: Row, o: Row): (d: Row)
    requires r.t >= o.t
  {
    Row(r.t - o.t, Difference(r.c1, o.c1), Difference(r.c2, o.c2))
  }

  /** The body of the outer loop. */
  ghost function Turned(s: Rows, x: nat, y: nat): (n: Rows)
    requires s.u.t > 0 && s.v.t > 0
    ensures n.v.t > 0 && n.u.t + n.v.t < s.u.t + s.v.t
  {
    var u, v := MadeOdd(s.u, x, y), MadeOdd(s.v, x, y);
    if u.t >= v.t then Rows(Less(u, v), v) else Rows(u, Less(v, u))
  }

  /** The outer loop, which ends when tu is zero. */
  ghost function Ended(s: Rows, x: nat, y: nat): (n: Rows)
    requires s.u.t > 0 && s.v.t > 0
    decreases s.u.t + s.v.t
  {
    var n := Turned(s, x, y);
    if n.u.t == 0 then n else Ended(n, x, y)
  }

  function Start(x: nat, y: nat): (s: Rows)
  {
    Rows(Row(x, Num(1, 1), Num(1, 0)), Row(y, Num(1, 0), Num(1, 1)))
  }

  /** The coefficient that bignum_inv_mod ends with, before it is brought below n. */
  ghost function Coefficient(x: nat, y: nat): (c: int)
    requires x > 0 && y > 0
  {
    ValueOf(Ended(Start(x, y), x, y).v.c1)
  }

  /** The coefficients are ones that the arrays hold. */
  ghost predicate Stored(r: Row)
  {
    r.c1.m < Capacity() && r.c2.m < Capacity()
  }

  /** The sums of one halving fit, and those of all halvings of a row. */
  ghost predicate HalvingFits(r: Row, x: nat, y: nat)
  {
    OddCoefficient(r) ==> Fits(ValueOf(r.c1) + y) && Fits(ValueOf(r.c2) - x)
  }

  ghost predicate HalvingsFit(r: Row, x: nat, y: nat)
    requires r.t > 0
    decreases r.t
  {
    r.t % 2 == 1 || (HalvingFits(r, x, y) && HalvingsFit(Halved(r, x, y), x, y))
  }

  ghost predicate LessFits(r: Row, o: Row)
  {
    Fits(ValueOf(r.c1) - ValueOf(o.c1)) && Fits(ValueOf(r.c2) - ValueOf(o.c2))
  }

  ghost predicate TurnFits(s: Rows, x: nat, y: nat)
    requires s.u.t > 0 && s.v.t > 0
  {
    && HalvingsFit(s.u, x, y) && HalvingsFit(s.v, x, y)
    && var u, v := MadeOdd(s.u, x, y), MadeOdd(s.v, x, y);
       if u.t >= v.t then LessFits(u, v) else LessFits(v, u)
  }

  /** No sum of the run is too large for the array. */
  ghost predicate RunFits(s: Rows, x: nat, y: nat)
    requires s.u.t > 0 && s.v.t > 0
    decreases s.u.t + s.v.t
  {
    && TurnFits(s, x, y)
    && var n := Turned(s, x, y);
       n.u.t == 0 || RunFits(n, x, y)
  }

  /** A row is a combination of x and y. */
  ghost predicate Combines(r: Row, x: nat, y: nat)
  {
    Stored(r) && r.t == ValueOf(r.c1) * x + ValueOf(r.c2) * y
  }

  lemma Parity(a: Num)
    ensures a.m % 2 == 1 <==> ValueOf(a) % 2 == 1
    ensures a.m % 2 == 0 ==> ValueOf(Half(a)) == ValueOf(a) / 2
  {
  }

  /** Halving a row whose sums fit is halving the values of its coefficients. */
  lemma HalvedValues(r: Row, x: nat, y: nat)
    requires Combines(r, x, y) && r.t % 2 == 0 && (x % 2 == 1 || y % 2 == 1) && HalvingFits(r, x, y)
    requires x < Capacity() && y < Capacity()
    ensures Stored(Halved(r, x, y))
    ensures ValueOf(Halved(r, x, y).c1) == Half1(ValueOf(r.c1), ValueOf(r.c2), y)
    ensures ValueOf(Halved(r, x, y).c2) == Half2(ValueOf(r.c1), ValueOf(r.c2), x)
  {
    hide Capacity, Sum, Fits;
    Parity(r.c1);
    Parity(r.c2);
    if OddCoefficient(r) {
      CoefficientParity(r.t, ValueOf(r.c1), ValueOf(r.c2), x, y);
      SumExact(r.c1, Num(1, y));
      SumExact(r.c2, Negated(Num(1, x)));
      Parity(Sum(r.c1, Num(1, y)));
      Parity(Difference(r.c2, Num(1, x)));
    }
  }

  lemma HalvedCombines(r: Row, x: nat, y: nat)
    requires Combines(r, x, y) && r.t % 2 == 0 && (x % 2 == 1 || y % 2 == 1) && HalvingFits(r, x, y)
    requires x < Capacity() && y < Capacity()
    ensures Combines(Halved(r, x, y), x, y)
  {
    hide Capacity, HalvingFits, ValueOf, Half1, Half2, Half;
    HalvedValues(r, x, y);
    HalfCombination(r.t, ValueOf(r.c1), ValueOf(r.c2), x, y);
  }

  lemma {:induction false} MadeOddCombines(r: Row, x: nat, y: nat, o: nat)
    requires r.t > 0 && Combines(r, x, y) && (x % 2 == 1 || y % 2 == 1) && HalvingsFit(r, x, y)
    requires x < Capacity() && y < Capacity() && Coprime(r.t, o)
    ensures Combines(MadeOdd(r, x, y), x, y) && Coprime(MadeOdd(r, x, y).t, o)
    decreases r.t
  {
    hide Capacity, Combines, Coprime, HalvingFits;
    if r.t % 2 == 0 {
      HalvedCombines(r, x, y);
      CoprimeHalve(r.t, o);
      MadeOddCombines(Halved(r, x, y), x, y, o);
    }
  }

  lemma LessCombines(r: Row, o: Row, x: nat, y: nat)
    requires Combines(r, x, y) && Combines(o, x, y) && r.t >= o.t && LessFits(r, o)
    ensures Combines(Less(r, o), x, y)
  {
    hide Capacity, Sum, Fits;
    SumExact(r.c1, Negated(o.c1));
    SumExact(r.c2, Negated(o.c2));
    DistribSub(x, ValueOf(r.c1), ValueOf(o.c1));
    DistribSub(y, ValueOf(r.c2), ValueOf(o.c2));
  }

  lemma CoprimeSwap(t: nat, o: nat)
    requires Coprime(t, o)
    ensures Coprime(o, t)
  {
  }

  ghost predicate Running(s: Rows, x: nat, y: nat)
  {
    && s.u.t > 0 && s.v.t > 0
    && Combines(s.u, x, y) && Combines(s.v, x, y) && Coprime(s.u.t, s.v.t)
    && (x % 2 == 1 || y % 2 == 1) && x < Capacity() && y < Capacity()
  }

  lemma OddRows(s: Rows, x: nat, y: nat)
    requires Running(s, x, y) && TurnFits(s, x, y)
    ensures Running(Rows(MadeOdd(s.u, x, y), MadeOdd(s.v, x, y)), x, y)
  {
    hide Capacity, Combines, Coprime, HalvingsFit, MadeOdd, LessFits;
    MadeOddCombines(s.u, x, y, s.v.t);
    CoprimeSwap(MadeOdd(s.u, x, y).t, s.v.t);
    MadeOddCombines(s.v, x, y, MadeOdd(s.u, x, y).t);
    CoprimeSwap(MadeOdd(s.v, x, y).t, MadeOdd(s.u, x, y).t);
  }

  /** A turn whose sums fit ends with the inverse or keeps the rows running. */
  lemma TurnedRuns(s: Rows, x: nat, y: nat)
    requires Running(s, x, y) && TurnFits(s, x, y)
    ensures var n := Turned(s, x, y);
            if n.u.t == 0 then Cong(ValueOf(n.v.c1) * x, 1, y) else Running(n, x, y)
  {
    hide Capacity, Coprime, HalvingsFit, MadeOdd, Cong, ValueOf, Stored, Sum, LessFits;
    OddRows(s, x, y);
    var u, v := MadeOdd(s.u, x, y), MadeOdd(s.v, x, y);
    if u.t >= v.t {
      if u.t == v.t {
        CoprimeMeets(v.t, ValueOf(v.c1), ValueOf(v.c2), x, y);
      } else {
        LessCombines(u, v, x, y);
        CoprimeSubtract(u.t, v.t);
      }
    } else {
      LessCombines(v, u, x, y);
      CoprimeSwap(u.t, v.t);
      CoprimeSubtract(v.t, u.t);
      CoprimeSwap(v.t - u.t, u.t);
    }
  }

  lemma {:induction false} RunInverts(s: Rows, x: nat, y: nat)
    requires Running(s, x, y) && RunFits(s, x, y)
    ensures Cong(ValueOf(Ended(s, x, y).v.c1) * x, 1, y)
    decreases s.u.t + s.v.t
  {
    hide Running, TurnFits, Cong, ValueOf, Turned;
    TurnedRuns(s, x, y);
    RunningPositive(s, x, y);
    var n := Turned(s, x, y);
    if n.u.t != 0 { RunInverts(n, x, y); }
  }

  lemma RunningPositive(s: Rows, x: nat, y: nat)
    requires Running(s, x, y)
    ensures s.u.t > 0 && s.v.t > 0
  {
  }

  lemma StartRuns(x: nat, y: nat)
    requires 0 < x < y < Capacity() && Coprime(x, y)
    ensures Running(Start(x, y), x, y)
  {
    hide Capacity;
    if x % 2 == 0 && y % 2 == 0 {
      DividesIntro(2, x, x / 2);
      DividesIntro(2, y, y / 2);
      DividesBound(2, 1);
    }
  }

  /** bignum_inv_mod finds the inverse of a number that has one, as long as no sum of its
      run is too large for the arrays. */
  lemma InverseWhen(x: nat, y: nat)
    requires 0 < x < y < Capacity() && Coprime(x, y) && RunFits(Start(x, y), x, y)
    ensures Cong(Coefficient(x, y) * x, 1, y)
  {
    hide Capacity, Coprime, Cong, RunFits, Running, Ended, ValueOf;
    StartRuns(x, y);
    RunInverts(Start(x, y), x, y);
  }

  lemma RoomFits(x: nat, y: nat, c: nat, c1: int, c2: int)
    requires Within(c1, 2 * Room(c, y)) && Within(c2, 2 * Room(c, y))
    requires 2 * Room(c, y) + y < Capacity() && x < y
    ensures Fits(c1 + y) && Fits(c2 - x)
  {
    hide Room;
  }

  lemma {:induction false} SideLaterBy(x: nat, y: nat, c: nat, c': nat, t: nat, c1: int, c2: int)
    requires Side(x, y, c, t, c1, c2) && c <= c'
    ensures Side(x, y, c', t, c1, c2)
    decreases c' - c
  {
    hide Side;
    if c < c' {
      SideLater(x, y, c, t, c1, c2);
      SideLaterBy(x, y, c + 1, c', t, c1, c2);
    }
  }

  lemma SubtractFits(x: nat, y: nat, c: nat, t: nat, c1: int, c2: int, o: nat, e1: int, e2: int)
    requires Side(x, y, c, t, c1, c2) && Side(x, y, c, o, e1, e2) && t % 2 == 1 && o % 2 == 1
    requires Headroom(y) && c < 2 * BitCount(y) && x < y
    ensures Fits(c1 - e1) && Fits(c2 - e2)
    ensures Fits(e1 - c1) && Fits(e2 - c2)
    ensures Fits(c1) && Fits(e1)
  {
    hide Room, Headroom, Capacity;
    SideFits(x, y, c, t, c1, c2);
  }

  /** A row within its bound after c halvings. */
  ghost predicate Bounded(r: Row, x: nat, y: nat, c: nat)
  {
    Stored(r) && Side(x, y, c, r.t, ValueOf(r.c1), ValueOf(r.c2))
  }

  ghost predicate Setting(x: nat, y: nat)
  {
    x < y < Capacity() && (x % 2 == 1 || y % 2 == 1) && Headroom(y)
  }

  lemma BoundedHalving(r: Row, x: nat, y: nat, c: nat, o: nat)
    requires Setting(x, y) && Bounded(r, x, y, c) && Pair(x, y, c, r.t, o) && o > 0 && r.t % 2 == 0
    ensures HalvingFits(r, x, y) && Bounded(Halved(r, x, y), x, y, c + 1) && Pair(x, y, c + 1, r.t / 2, o)
  {
    hide Pair, Headroom, Capacity, Room, Half1, Half2, ValueOf, Sum, Half, Fits;
    var e1, e2 := ValueOf(r.c1), ValueOf(r.c2);
    HalvingsBounded(x, y, c, r.t, o);
    SideFits(x, y, c, r.t, e1, e2);
    RoomFits(x, y, c, e1, e2);
    SideHalve(x, y, c, r.t, e1, e2);
    PairHalve(x, y, c, r.t, o);
    HalvedValues(r, x, y);
  }

  lemma {:induction false} BoundedHalvings(r: Row, x: nat, y: nat, c: nat, o: nat) returns (c': nat)
    requires Setting(x, y) && Bounded(r, x, y, c) && Pair(x, y, c, r.t, o) && o > 0 && r.t > 0
    ensures c <= c' && HalvingsFit(r, x, y)
    ensures Bounded(MadeOdd(r, x, y), x, y, c') && Pair(x, y, c', MadeOdd(r, x, y).t, o)
    decreases r.t
  {
    hide Pair, Bounded, Setting, HalvingFits;
    c' := c;
    if r.t % 2 == 0 {
      BoundedHalving(r, x, y, c, o);
      c' := BoundedHalvings(Halved(r, x, y), x, y, c + 1, o);
    }
  }

  lemma BoundedLater(r: Row, x: nat, y: nat, c: nat, c': nat)
    requires Bounded(r, x, y, c) && c <= c'
    ensures Bounded(r, x, y, c')
  {
    hide Side, Stored, ValueOf;
    SideLaterBy(x, y, c, c', r.t, ValueOf(r.c1), ValueOf(r.c2));
  }

  /** Two rows within their bounds, no further apart than when they started. */
  ghost predicate BothBounded(s: Rows, x: nat, y: nat, c: nat)
  {
    s.u.t > 0 && s.v.t > 0 && Bounded(s.u, x, y, c) && Bounded(s.v, x, y, c) && Pair(x, y, c, s.u.t, s.v.t)
  }

  lemma BoundedOdd(s: Rows, x: nat, y: nat, c: nat) returns (c': nat)
    requires Setting(x, y) && BothBounded(s, x, y, c)
    ensures HalvingsFit(s.u, x, y) && HalvingsFit(s.v, x, y)
    ensures BothBounded(Rows(MadeOdd(s.u, x, y), MadeOdd(s.v, x, y)), x, y, c')
  {
    hide Pair, Bounded, Setting, HalvingsFit, MadeOdd;
    var d := BoundedHalvings(s.u, x, y, c, s.v.t);
    var u := MadeOdd(s.u, x, y);
    BoundedLater(s.v, x, y, c, d);
    PairSwap(x, y, d, u.t, s.v.t);
    c' := BoundedHalvings(s.v, x, y, d, u.t);
    BoundedLater(u, x, y, d, c');
    PairSwap(x, y, c', MadeOdd(s.v, x, y).t, u.t);
  }

  lemma BoundedLess(r: Row, o: Row, x: nat, y: nat, c: nat)
    requires Setting(x, y) && Bounded(r, x, y, c) && Bounded(o, x, y, c) && Pair(x, y, c, r.t, o.t)
    requires r.t % 2 == 1 && o.t % 2 == 1 && r.t >= o.t
    ensures LessFits(r, o)
    ensures r.t > o.t ==> Bounded(Less(r, o), x, y, c) && Pair(x, y, c, r.t - o.t, o.t)
  {
    hide Pair, Headroom, Capacity, Room, ValueOf, Sum, Fits, BitCount;
    var c1, c2, e1, e2 := ValueOf(r.c1), ValueOf(r.c2), ValueOf(o.c1), ValueOf(o.c2);
    HalvingsBounded(x, y, c, r.t, o.t);
    SubtractFits(x, y, c, r.t, c1, c2, o.t, e1, e2);
    if r.t > o.t {
      SideSubtract(x, y, c, r.t, c1, c2, o.t, e1, e2);
      PairSubtract(x, y, c, r.t, o.t);
      DifferenceExact(r.c1, o.c1);
      DifferenceExact(r.c2, o.c2);
    }
  }

  lemma DifferenceExact(a: Num, b: Num)
    requires a.m < Capacity() && b.m < Capacity() && Fits(ValueOf(a) - ValueOf(b))
    ensures Difference(a, b).m < Capacity() && ValueOf(Difference(a, b)) == ValueOf(a) - ValueOf(b)
  {
    hide Capacity, Sum, Fits;
    SumExact(a, Negated(b));
  }

  lemma BoundedTurn(s: Rows, x: nat, y: nat, c: nat) returns (c': nat)
    requires Setting(x, y) && BothBounded(s, x, y, c)
    ensures TurnFits(s, x, y)
    ensures Turned(s, x, y).u.t == 0 || BothBounded(Turned(s, x, y), x, y, c')
  {
    hide Pair, Bounded, Setting, HalvingsFit, MadeOdd, LessFits, Difference;
    c' := BoundedOdd(s, x, y, c);
    var u, v := MadeOdd(s.u, x, y), MadeOdd(s.v, x, y);
    if u.t >= v.t {
      BoundedLess(u, v, x, y, c');
    } else {
      PairSwap(x, y, c', u.t, v.t);
      BoundedLess(v, u, x, y, c');
      PairSwap(x, y, c', v.t - u.t, u.t);
    }
  }

  lemma {:induction false} BoundedRun(s: Rows, x: nat, y: nat, c: nat)
    requires Setting(x, y) && BothBounded(s, x, y, c)
    ensures RunFits(s, x, y)
    decreases s.u.t + s.v.t
  {
    hide Setting, Bounded, Pair, TurnFits, Turned;
    var c' := BoundedTurn(s, x, y, c);
    var n := Turned(s, x, y);
    if n.u.t != 0 { BoundedRun(n, x, y, c'); }
  }

  /** Room for (4 * bits + 4) times the modulus is enough for every run. */
  lemma HeadroomFits(x: nat, y: nat)
    requires 0 < x < y < Capacity() && Coprime(x, y) && Headroom(y)
    ensures RunFits(Start(x, y), x, y)
  {
    hide Capacity, Headroom, RunFits;
    StartRuns(x, y);
    assert Pow2(0) == 1;
    BoundedRun(Start(x, y), x, y, 0);
  }

  /** The rows of the failing run: the first sum, one and the modulus, came out as zero. */
  ghost function Astray(j: nat): (s: Rows)
    requires j >= 2
  {
    TwoPowers(j);
    Rows(Row(1, Num(1, 0), Num(-1, 1)), Row(Pow2(j) - 2, Num(1, 0), Num(1, 2)))
  }

  lemma TwoPowers(j: nat)
    requires j >= 2
    ensures Pow2(j) == 2 * Pow2(j - 1) && Pow2(j - 1) == 2 * Pow2(j - 2) && Pow2(j - 2) >= 1
    ensures j == 2 ==> Pow2(j - 2) == 1
  {
  }

  lemma AstrayOdd(j: nat, x: nat, y: nat)
    requires j >= 2
    ensures Pow2(j - 1) >= 2 && Astray(j).v.t > 0
    ensures MadeOdd(Astray(j).v, x, y) == Row(Pow2(j - 1) - 1, Num(1, 0), Num(1, 1))
    ensures MadeOdd(Astray(j).u, x, y) == Astray(j).u
  {
    hide Pow2, Sum;
    TwoPowers(j);
    var v := Row(Pow2(j - 1) - 1, Num(1, 0), Num(1, 1));
    assert Halved(Astray(j).v, x, y) == v;
    assert MadeOdd(v, x, y) == v;
  }

  lemma AstrayTurn(j: nat, x: nat, y: nat)
    requires j >= 2 && Capacity() > 2
    ensures Astray(j).v.t > 0
    ensures j > 2 ==> Turned(Astray(j), x, y) == Astray(j - 1)
    ensures j == 2 ==> Turned(Astray(j), x, y).u.t == 0 && Turned(Astray(j), x, y).v.c1 == Num(1, 0)
  {
    hide Capacity, Pow2, MadeOdd;
    TwoPowers(j);
    if j > 2 { TwoPowers(j - 1); }
    AstrayOdd(j, x, y);
  }

  lemma {:induction false} AstrayEnds(j: nat, x: nat, y: nat)
    requires j >= 2 && Capacity() > 2
    ensures Astray(j).v.t > 0 && Ended(Astray(j), x, y).v.c1 == Num(1, 0)
  {
    hide Capacity, Turned, Astray;
    AstrayTurn(j, x, y);
    AstrayRow(j);
    if j > 2 {
      AstrayRow(j - 1);
      AstrayEnds(j - 1, x, y);
    }
  }

  lemma AstrayRow(j: nat)
    requires j >= 2
    ensures Astray(j).u.t == 1
  {
  }

  /** The number two has an inverse modulo the largest number of the array, and
      bignum_inv_mod returns zero for it. */
  lemma InverseFails()
    ensures Capacity() > 3 && var y := Capacity() - 1; Coprime(2, y) && Coefficient(2, y) == 0 && !Cong(0 * 2, 1, y)
  {
    hide Pow, Pow2, Ended, Coprime, Cong;
    var k := 8 * N;
    CapacityBits();
    TwoPowers(k);
    TwoPowers(k - 1);
    var y := Capacity() - 1;
    FirstTurn(y);
    AstrayEnds(k, 2, y);
    OddCoprime(y);
    NotUnit(y);
    assert Ended(Start(2, y), 2, y) == Ended(Astray(k), 2, y) by { EndedNext(Start(2, y), 2, y); }
  }

  lemma EndedNext(s: Rows, x: nat, y: nat)
    requires s.u.t > 0 && s.v.t > 0 && Turned(s, x, y).u.t != 0
    ensures Ended(s, x, y) == Ended(Turned(s, x, y), x, y)
  {
    hide Turned;
  }

  lemma CapacityBits()
    ensures Capacity() == Pow2(8 * N)
  {
    assert Pow2(8) == 256;
    PowOfPow2(8, N);
  }

  lemma FirstTurn(y: nat)
    requires y == Capacity() - 1 && Capacity() == Pow2(8 * N) && Capacity() > 3 && y % 2 == 1
    ensures Turned(Start(2, y), 2, y) == Astray(8 * N)
  {
    hide Capacity, Pow2;
    var u := Row(1, Num(1, 0), Num(-1, 1));
    var s := Start(2, y);
    assert Sum(s.u.c1, Num(1, y)) == Num(1, 0);
    assert Halved(s.u, 2, y) == u;
    assert MadeOdd(u, 2, y) == u;
    assert MadeOdd(s.u, 2, y) == u;
    assert MadeOdd(s.v, 2, y) == s.v;
  }

  lemma OddCoprime(y: nat)
    requires y % 2 == 1
    ensures Coprime(2, y)
  {
    forall d | Divides(d, 2) && Divides(d, y) ensures Divides(d, 1) {
      DividesMul(d, 2, -(y / 2));
      DividesAdd(d, y, 2 * -(y / 2));
    }
  }

  lemma NotUnit(y: nat)
    requires y > 1
    ensures !Cong(0 * 2, 1, y)
  {
    if Cong(0 * 2, 1, y) {
      DividesMul(y, -1, -1);
      DividesBound(y, 1);
    }
  }
}
