/** crypto/ecc.c: vli_modinv, the binary inversion of "From Euclid's GCD to
    Montgomery Multiplication to the Great Divide", on digit arrays. */
module VliInverse {
  import opened Arith
  import opened Limbs
  import opened NumberTheory
  import opened Vli
  import opened Machine

  /** u/2 modulo an odd m. */
  function HalfMod(u: nat, m: nat): (h: nat)
  {
    if u % 2 == 0 then u / 2 else (u + m) / 2
  }

  function DiffMod(u: nat, v: nat, m: nat): (d: int)
  {
    if u < v then u + m - v else u - v
  }

  /** One of the two running pairs: u stands for a modulo m, in units of x. */
  ghost predicate Tracks(u: nat, a: nat, x: nat, m: nat)
  {
    a > 0 && u < m && Cong(u * x, a, m)
  }

  /** What every step of vli_modinv keeps. */
  ghost predicate Inv(x: nat, m: nat, a: nat, b: nat, u: nat, v: nat)
  {
    && m % 2 == 1
    && Tracks(u, a, x, m)
    && Tracks(v, b, x, m)
    && (a % 2 == 1 || b % 2 == 1)
    && SameDivisors(a, b, x, m)
  }

  lemma InvStart(x: nat, m: nat)
    requires m % 2 == 1 && m > 1 && x > 0
    ensures Inv(x, m, x, m, 1, 0)
  {
    CongRefl(x, m);
    DividesIntro(m, 0 * x - m, -1);
  }

  lemma InvSwap(x: nat, m: nat, a: nat, b: nat, u: nat, v: nat)
    requires Inv(x, m, a, b, u, v)
    ensures Inv(x, m, b, a, v, u)
  {
  }

  lemma HalfTracks(u: nat, a: nat, x: nat, m: nat)
    requires m % 2 == 1 && a % 2 == 0
    requires Tracks(u, a, x, m)
    ensures Tracks(HalfMod(u, m), a / 2, x, m)
  {
    var h := HalfMod(u, m);
    assert 2 * h == u || 2 * h == u + m;
    Assoc(2, h, x);
    Distrib(x, u, m);
    CongShift(u * x, x, m);
    CongTrans(u * x + m * x, u * x, a, m);
    CongHalve(h * x, a / 2, m);
  }

  /** The even branch. */
  lemma InvHalve(x: nat, m: nat, a: nat, b: nat, u: nat, v: nat)
    requires Inv(x, m, a, b, u, v) && a % 2 == 0
    ensures Inv(x, m, a / 2, b, HalfMod(u, m), v)
  {
    HalfTracks(u, a, x, m);
    HalfDivisors(a, b, x, m);
  }

  /** The subtract branch. */
  lemma InvSubtract(x: nat, m: nat, a: nat, b: nat, u: nat, v: nat)
    requires Inv(x, m, a, b, u, v) && a % 2 == 1 && b % 2 == 1 && a > b
    ensures 0 <= DiffMod(u, v, m) < m
    ensures Inv(x, m, (a - b) / 2, b, HalfMod(DiffMod(u, v, m), m), v)
  {
    var d := DiffMod(u, v, m);
    DiffTracks(u, v, a, b, x, m);
    DiffDivisors(a, b, x, m);
    HalfTracks(d, a - b, x, m);
    HalfDivisors(a - b, b, x, m);
  }

  lemma DiffTracks(u: nat, v: nat, a: nat, b: nat, x: nat, m: nat)
    requires Tracks(u, a, x, m) && Tracks(v, b, x, m) && a > b
    ensures 0 <= DiffMod(u, v, m)
    ensures Tracks(DiffMod(u, v, m), a - b, x, m)
  {
    var d := DiffMod(u, v, m);
    CongAdd(u * x, a, v * x, b, m);
    DistribSub(x, u, v);
    Distrib(x, u - v, m);
    CongShift((u - v) * x, x, m);
    CongTrans((u - v) * x + m * x, (u - v) * x, a - b, m);
  }

  /** When the two numbers meet they are the greatest common divisor. */
  lemma InvMeets(x: nat, m: nat, a: nat, u: nat, v: nat)
    requires Inv(x, m, a, a, u, v)
    ensures IsGcd(a, x, m)
    ensures Cong(u * x, a, m)
  {
    DividesSelf(a);
  }

  /** EVEN(vli) */
  method Even(n: nat, vli: array<u64>) returns (even: bool)
    requires n > 0 && Slice(vli, 0, n)
    ensures even <==> V(vli, 0, n) % 2 == 0
  {
    ghost var S: seq<nat> := vli[0..n];
    LowBit(S);
    even := vli[0] % 2 == 0;
  }

  /** Halve u modulo mod: add mod first when u is odd, then shift, putting the
      carry of the addition back as the top bit. */
  method HalveInPlace(n: nat, u: array<u64>, mod: array<u64>)
    requires n > 0 && Slice(u, 0, n) && Slice(mod, 0, n) && u != mod
    requires V(u, 0, n) < V(mod, 0, n) && V(mod, 0, n) % 2 == 1
    modifies u
    ensures V(u, 0, n) == HalfMod(old(V(u, 0, n)), V(mod, 0, n))
    ensures V(u, 0, n) < V(mod, 0, n)
    ensures SameOutside(u, 0, n)
  {
    hide V, Val, Pow;
    ghost var x, m := V(u, 0, n), V(mod, 0, n);
    var carry: u64 := 0;
    var even := Even(n, u);
    if !even {
      carry := Add(n, u, 0, u, 0, mod, 0);
    }
    ghost var w := V(u, 0, n);
    Rshift1(n, u, 0);
    HalfBase(n);
    if carry != 0 {
      OrTopBit(n, u, TOP_BIT);
    }
  }

  /** Subtract v from u modulo mod; the carry of u + mod is dropped and comes
      back as the borrow of the subtraction. */
  method SubtractInPlace(n: nat, u: array<u64>, v: array<u64>, mod: array<u64>)
    requires n > 0 && Slice(u, 0, n) && Slice(v, 0, n) && Slice(mod, 0, n) && u != mod && u != v
    requires V(u, 0, n) < V(mod, 0, n) && V(v, 0, n) < V(mod, 0, n)
    modifies u
    ensures V(u, 0, n) == DiffMod(old(V(u, 0, n)), V(v, 0, n), V(mod, 0, n))
    ensures V(u, 0, n) < V(mod, 0, n)
    ensures SameOutside(u, 0, n)
  {
    hide V, Val, Pow;
    ghost var p, d := Pow(BASE, n), DiffMod(V(u, 0, n), V(v, 0, n), V(mod, 0, n));
    VBound(mod, 0, n);
    var c := Cmp(n, u, 0, v, 0);
    var carry: u64 := 0;
    if c < 0 {
      carry := Add(n, u, 0, u, 0, mod, 0);
    }
    var borrow := Sub(n, u, 0, u, 0, v, 0);
    VBound(u, 0, n);
    DistribSub(p, carry, borrow);
    CarryFixed(V(u, 0, n), carry - borrow, p, d);
  }

  /** `vli_rshift1(a)` with u halved beside it. */
  method HalvePair(n: nat, a: array<u64>, u: array<u64>, mod: array<u64>)
    requires n > 0 && Slice(a, 0, n) && Slice(u, 0, n) && Slice(mod, 0, n)
    requires a != u && a != mod && u != mod
    requires V(u, 0, n) < V(mod, 0, n) && V(mod, 0, n) % 2 == 1
    modifies a, u
    ensures V(a, 0, n) == old(V(a, 0, n)) / 2
    ensures V(u, 0, n) == HalfMod(old(V(u, 0, n)), V(mod, 0, n))
  {
    hide V;
    Rshift1(n, a, 0);
    HalveInPlace(n, u, mod);
  }

  /** `a = (a - b) / 2` with u - v halved beside it. */
  method SubtractPair(n: nat, a: array<u64>, b: array<u64>, u: array<u64>, v: array<u64>, mod: array<u64>)
    requires n > 0 && Slice(a, 0, n) && Slice(b, 0, n) && Slice(u, 0, n) && Slice(v, 0, n) && Slice(mod, 0, n)
    requires a !in {b, u, v, mod} && u !in {b, v, mod}
    requires V(b, 0, n) <= V(a, 0, n)
    requires V(u, 0, n) < V(mod, 0, n) && V(v, 0, n) < V(mod, 0, n) && V(mod, 0, n) % 2 == 1
    modifies a, u
    ensures V(a, 0, n) == (old(V(a, 0, n)) - V(b, 0, n)) / 2
    ensures 0 <= DiffMod(old(V(u, 0, n)), V(v, 0, n), V(mod, 0, n))
    ensures V(u, 0, n) == HalfMod(DiffMod(old(V(u, 0, n)), V(v, 0, n), V(mod, 0, n)), V(mod, 0, n))
  {
    hide V;
    SubtractSmaller(n, a, b);
    Rshift1(n, a, 0);
    SubtractInPlace(n, u, v, mod);
    HalveInPlace(n, u, mod);
  }

  /** The body of the loop of vli_modinv. */
  method Step(n: nat, a: array<u64>, b: array<u64>, u: array<u64>, v: array<u64>, mod: array<u64>, cmp: int,
              ghost x: nat)
    requires n > 0 && Slice(a, 0, n) && Slice(b, 0, n) && Slice(u, 0, n) && Slice(v, 0, n) && Slice(mod, 0, n)
    requires a !in {b, u, v, mod} && b !in {u, v, mod} && u !in {v, mod} && v != mod
    requires Inv(x, V(mod, 0, n), V(a, 0, n), V(b, 0, n), V(u, 0, n), V(v, 0, n))
    requires cmp == SignOf(V(a, 0, n) - V(b, 0, n)) && cmp != 0
    modifies a, b, u, v
    ensures Inv(x, V(mod, 0, n), V(a, 0, n), V(b, 0, n), V(u, 0, n), V(v, 0, n))
    ensures V(a, 0, n) + V(b, 0, n) < old(V(a, 0, n) + V(b, 0, n))
  {
    hide V, Inv, HalfMod, DiffMod;
    ghost var m, A, B, U, W := V(mod, 0, n), V(a, 0, n), V(b, 0, n), V(u, 0, n), V(v, 0, n);
    InvFacts(x, m, A, B, U, W);
    var evenA := Even(n, a);
    var evenB := Even(n, b);
    if evenA {
      InvHalve(x, m, A, B, U, W);
      HalvePair(n, a, u, mod);
    } else if evenB {
      InvSwap(x, m, A, B, U, W);
      InvHalve(x, m, B, A, W, U);
      HalvePair(n, b, v, mod);
      InvSwap(x, m, B / 2, A, V(v, 0, n), U);
    } else if cmp > 0 {
      InvSubtract(x, m, A, B, U, W);
      SubtractPair(n, a, b, u, v, mod);
    } else {
      InvSwap(x, m, A, B, U, W);
      InvSubtract(x, m, B, A, W, U);
      SubtractPair(n, b, a, v, u, mod);
      InvSwap(x, m, (B - A) / 2, A, V(v, 0, n), U);
    }
  }

  /** The loop of vli_modinv. */
  method Loop(n: nat, a: array<u64>, b: array<u64>, u: array<u64>, v: array<u64>, mod: array<u64>, ghost x: nat)
    returns (ghost g: nat)
    requires n > 0 && Slice(a, 0, n) && Slice(b, 0, n) && Slice(u, 0, n) && Slice(v, 0, n) && Slice(mod, 0, n)
    requires a !in {b, u, v, mod} && b !in {u, v, mod} && u !in {v, mod} && v != mod
    requires Inv(x, V(mod, 0, n), V(a, 0, n), V(b, 0, n), V(u, 0, n), V(v, 0, n))
    modifies a, b, u, v
    ensures V(u, 0, n) < V(mod, 0, n)
    ensures IsGcd(g, x, V(mod, 0, n)) && Cong(V(u, 0, n) * x, g, V(mod, 0, n))
  {
    hide V, Inv, IsGcd, Cong;
    ghost var m := V(mod, 0, n);
    var cmp := Cmp(n, a, 0, b, 0);
    while cmp != 0
      invariant V(mod, 0, n) == m
      invariant Inv(x, m, V(a, 0, n), V(b, 0, n), V(u, 0, n), V(v, 0, n))
      invariant cmp == SignOf(V(a, 0, n) - V(b, 0, n))
      decreases V(a, 0, n) + V(b, 0, n)
    {
      Step(n, a, b, u, v, mod, cmp, x);
      cmp := Cmp(n, a, 0, b, 0);
    }
    g := V(a, 0, n);
    InvFacts(x, m, g, g, V(u, 0, n), V(v, 0, n));
    InvMeets(x, m, g, V(u, 0, n), V(v, 0, n));
  }

  /** vli_modinv: for an odd modulus above 1 the result r is reduced and
      r * input is congruent to the greatest common divisor of input and mod,
      so r is the inverse of every input coprime to mod.  A zero input gives 0. */
  method ModInv(n: nat, result: array<u64>, input: array<u64>, mod: array<u64>) returns (ghost g: nat)
    requires n > 0 && Slice(result, 0, n) && Slice(input, 0, n) && Slice(mod, 0, n)
    requires V(mod, 0, n) % 2 == 1 && V(mod, 0, n) > 1
    modifies result
    ensures V(result, 0, n) < old(V(mod, 0, n))
    ensures old(V(input, 0, n)) == 0 ==> V(result, 0, n) == 0
    ensures old(V(input, 0, n)) > 0 ==>
              && IsGcd(g, old(V(input, 0, n)), old(V(mod, 0, n)))
              && Cong(V(result, 0, n) * old(V(input, 0, n)), g, old(V(mod, 0, n)))
    ensures SameOutside(result, 0, n)
  {
    hide V, Inv, IsGcd, Cong;
    ghost var x, m := V(input, 0, n), V(mod, 0, n);
    g := 0;
    var zero := IsZero(n, input, 0);
    if zero {
      Clear(n, result, 0);
      return;
    }
    var a, b, u, v := new u64[n], new u64[n], new u64[n], new u64[n];
    Set(n, a, 0, input, 0);
    Set(n, b, 0, mod, 0);
    SetOne(n, u);
    Clear(n, v, 0);
    InvStart(x, m);
    g := Loop(n, a, b, u, v, mod, x);
    Set(n, result, 0, u, 0);
  }

  lemma InvFacts(x: nat, m: nat, a: nat, b: nat, u: nat, v: nat)
    requires Inv(x, m, a, b, u, v)
    ensures m % 2 == 1 && a > 0 && b > 0 && u < m && v < m
  {
  }

  /** `vli_sub(a, a, b)` when a is the larger. */
  method SubtractSmaller(n: nat, a: array<u64>, b: array<u64>)
    requires n > 0 && Slice(a, 0, n) && Slice(b, 0, n) && a != b
    requires V(b, 0, n) <= V(a, 0, n)
    modifies a
    ensures V(a, 0, n) == old(V(a, 0, n)) - V(b, 0, n)
    ensures SameOutside(a, 0, n)
  {
    hide V, Val, Pow;
    ghost var d := V(a, 0, n) - V(b, 0, n);
    VBound(a, 0, n);
    var borrow := Sub(n, a, 0, a, 0, b, 0);
    VBound(a, 0, n);
    CarryFixed(V(a, 0, n), -borrow, Pow(BASE, n), d);
  }
}
