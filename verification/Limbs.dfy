/** Little-endian multi-word naturals: the value of a digit sequence in a
    given base, and how it splits, compares and is bounded. */
module Limbs {
  import opened Arith
  import opened Bits

  function Pow(b: nat, n: nat): (r: nat)
  {
    if n == 0 then 1 else b * Pow(b, n - 1)
  }

  /** The natural number that the digits `s`, least significant first, stand for. */
  function Val(s: seq<nat>, b: nat): (r: nat)
  {
    if |s| == 0 then 0 else s[0] + b * Val(s[1..], b)
  }

  ghost predicate Digits(s: seq<nat>, b: nat)
  {
    forall i :: 0 <= i < |s| ==> s[i] < b
  }

  lemma {:induction false} PowPositive(b: nat, n: nat)
    requires b > 0
    ensures Pow(b, n) > 0
  {
    if n != 0 {
      PowPositive(b, n - 1);
      MulAtLeast(b, Pow(b, n - 1));
    }
  }

  lemma {:induction false} PowAdd(b: nat, m: nat, n: nat)
    ensures Pow(b, m + n) == Pow(b, m) * Pow(b, n)
  {
    if m != 0 {
      PowAdd(b, m - 1, n);
      assert m + n - 1 == (m - 1) + n;
      Assoc(b, Pow(b, m - 1), Pow(b, n));
    }
  }

  lemma {:induction false} PowOfPow2(k: nat, n: nat)
    ensures Pow(Pow2(k), n) == Pow2(k * n)
  {
    if n != 0 {
      PowOfPow2(k, n - 1);
      Pow2Add(k, k * (n - 1));
      DistribSub(k, n, 1);
    } else {
      assert k * n == 0;
    }
  }

  lemma ValEmpty(b: nat)
    ensures Val([], b) == 0
  {
  }

  lemma ValCons(d: nat, s: seq<nat>, b: nat)
    ensures Val([d] + s, b) == d + b * Val(s, b)
  {
    assert ([d] + s)[1..] == s;
  }

  lemma {:induction false} ValConcat(s: seq<nat>, t: seq<nat>, b: nat)
    ensures Val(s + t, b) == Val(s, b) + Pow(b, |s|) * Val(t, b)
  {
    if |s| == 0 {
      assert s + t == t;
    } else {
      assert (s + t)[1..] == s[1..] + t;
      ValConcat(s[1..], t, b);
      calc {
        Val(s + t, b);
        s[0] + b * Val(s[1..] + t, b);
        s[0] + b * (Val(s[1..], b) + Pow(b, |s| - 1) * Val(t, b));
        { HornerStep(s[0], b, Val(s[1..], b), Pow(b, |s| - 1), Val(t, b)); }
        s[0] + b * Val(s[1..], b) + (b * Pow(b, |s| - 1)) * Val(t, b);
        Val(s, b) + Pow(b, |s|) * Val(t, b);
      }
    }
  }

  lemma HornerStep(d: int, b: int, u: int, p: int, v: int)
    ensures d + b * (u + p * v) == d + b * u + (b * p) * v
  {
    Distrib(b, u, p * v);
    Assoc(b, p, v);
  }

  /** One more digit at the top. */
  lemma {:induction false} ValAppend(s: seq<nat>, d: nat, b: nat)
    ensures Val(s + [d], b) == Val(s, b) + d * Pow(b, |s|)
  {
    ValConcat(s, [d], b);
    assert Val([d], b) == d + b * Val([], b);
  }

  /** The prefix of length i + 1 from the prefix of length i. */
  lemma ValPrefix(s: seq<nat>, i: nat, b: nat)
    requires i < |s|
    ensures Val(s[..i + 1], b) == Val(s[..i], b) + s[i] * Pow(b, i)
  {
    assert s[..i + 1] == s[..i] + [s[i]];
    ValAppend(s[..i], s[i], b);
  }

  lemma ValSplit(s: seq<nat>, i: nat, b: nat)
    requires i <= |s|
    ensures Val(s, b) == Val(s[..i], b) + Pow(b, i) * Val(s[i..], b)
  {
    assert s == s[..i] + s[i..];
    ValConcat(s[..i], s[i..], b);
  }

  /** The suffix from i from the suffix from i + 1. */
  lemma ValSuffix(s: seq<nat>, i: nat, b: nat)
    requires i < |s|
    ensures Val(s[i..], b) == s[i] + b * Val(s[i + 1..], b)
  {
    assert s[i..][1..] == s[i + 1..];
  }

  lemma {:induction false} ValBound(s: seq<nat>, b: nat)
    requires b > 0
    requires Digits(s, b)
    ensures Val(s, b) < Pow(b, |s|)
  {
    if |s| != 0 {
      ValBound(s[1..], b);
      var v, p := Val(s[1..], b), Pow(b, |s| - 1);
      MulLe(b, v, p - 1);
      DistribSub(b, p, 1);
    }
  }

  lemma {:induction false} ValZeros(s: seq<nat>, b: nat)
    requires forall i :: 0 <= i < |s| ==> s[i] == 0
    ensures Val(s, b) == 0
  {
    if |s| != 0 { ValZeros(s[1..], b); }
  }

  /** One nonzero digit makes the value nonzero. */
  lemma {:induction false} ValPositive(s: seq<nat>, i: nat, b: nat)
    requires b > 0
    requires i < |s| && s[i] != 0
    ensures Val(s, b) > 0
  {
    if i == 0 {
      MulNonNeg(b, Val(s[1..], b));
    } else {
      ValPositive(s[1..], i - 1, b);
      MulAtLeast(b, Val(s[1..], b));
    }
  }

  /** The top digit decides an order between equally long numbers. */
  lemma ValTopLess(s: seq<nat>, t: seq<nat>, k: nat, b: nat)
    requires b > 0
    requires |s| == |t| && k < |s|
    requires Digits(s, b) && Digits(t, b)
    requires s[k + 1..] == t[k + 1..]
    requires s[k] < t[k]
    ensures Val(s, b) < Val(t, b)
  {
    ValSplit(s, k + 1, b);
    ValSplit(t, k + 1, b);
    ValPrefix(s, k, b);
    ValPrefix(t, k, b);
    ValBound(s[..k], b);
    var p := Pow(b, k);
    MulLe(p, s[k] + 1, t[k]);
    Distrib(p, s[k], 1);
  }

  lemma AddAlgebra(x: int, y: int, z: int, p: int, l: int, r: int, s: int, c: int, c': int, b: int)
    requires z + c * p == x + y
    requires l + r + c == s + c' * b
    ensures (z + s * p) + c' * (b * p) == (x + l * p) + (y + r * p)
  {
    Distrib(p, l + r, c);
    Distrib(p, l, r);
    Distrib(p, s, c' * b);
    Assoc(c', b, p);
  }

  /** One more digit, with its carry, extends a sum of prefixes. */
  lemma AddStep(L: seq<nat>, R: seq<nat>, Z: seq<nat>, c: int, s: nat, c': int, b: nat)
    requires |Z| < |L| == |R|
    requires Val(Z, b) + c * Pow(b, |Z|) == Val(L[..|Z|], b) + Val(R[..|Z|], b)
    requires L[|Z|] + R[|Z|] + c == s + c' * b
    ensures Val(Z + [s], b) + c' * Pow(b, |Z| + 1) == Val(L[..|Z| + 1], b) + Val(R[..|Z| + 1], b)
  {
    hide Val;
    var i := |Z|;
    AddAlgebra(Val(L[..i], b), Val(R[..i], b), Val(Z, b), Pow(b, i), L[i], R[i], s, c, c', b);
    ValAppend(Z, s, b);
    ValPrefix(L, i, b);
    ValPrefix(R, i, b);
  }

  /** One more digit, with its borrow, extends a difference of prefixes. */
  lemma SubStep(L: seq<nat>, R: seq<nat>, Z: seq<nat>, c: int, d: nat, c': int, b: nat)
    requires |Z| < |L| == |R|
    requires Val(L[..|Z|], b) + c * Pow(b, |Z|) == Val(Z, b) + Val(R[..|Z|], b)
    requires L[|Z|] - R[|Z|] - c == d - c' * b
    ensures Val(L[..|Z| + 1], b) + c' * Pow(b, |Z| + 1) == Val(Z + [d], b) + Val(R[..|Z| + 1], b)
  {
    hide Val;
    var i := |Z|;
    AddAlgebra(Val(Z, b), Val(R[..i], b), Val(L[..i], b), Pow(b, i), d, R[i], L[i], c, c', b);
    ValAppend(Z, d, b);
    ValPrefix(L, i, b);
    ValPrefix(R, i, b);
  }

  /** Digits are determined by their value and number. */
  lemma {:induction false} ValUnique(s: seq<nat>, t: seq<nat>, b: nat)
    requires |s| == |t| && Digits(s, b) && Digits(t, b) && Val(s, b) == Val(t, b)
    ensures s == t
  {
    if |s| != 0 {
      Peel(s[0], t[0], Val(s[1..], b), Val(t[1..], b), b);
      ValUnique(s[1..], t[1..], b);
      assert s == [s[0]] + s[1..] && t == [t[0]] + t[1..];
    }
  }
}
