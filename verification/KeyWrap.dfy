/** crypto/key_wrap.c: the AES key wrap of RFC 3394, in place on byte buffers that
    may overlap. */
module KeyWrap {
  import opened Aes
  import opened AesBlock
  import opened AesByte
  import opened AesEcb
  import opened Arith
  import opened Endian
  import Powers = Bits

  /** An AES context, with any number of rounds. */
  datatype Context = Context(rounds: nat, sk: seq<bv32>)
  type Schedule = k: Context | k.rounds >= 1 && 8 * k.rounds + 8 <= |k.sk|
    witness Context(1, [0, 0, 0, 0, 0, 0, 0, 0, 0, 0, 0, 0, 0, 0, 0, 0])

  type Half = h: seq<bv8> | |h| == 8 witness [0, 0, 0, 0, 0, 0, 0, 0]
  const IV: Half := [0xA6, 0xA6, 0xA6, 0xA6, 0xA6, 0xA6, 0xA6, 0xA6]

  ghost function Unbits(x: Byte): (b: bv8)
  {
    (if x.b0 == 1 then 1 else 0) | (if x.b1 == 1 then 2 else 0) | (if x.b2 == 1 then 4 else 0)
    | (if x.b3 == 1 then 8 else 0) | (if x.b4 == 1 then 16 else 0) | (if x.b5 == 1 then 32 else 0)
    | (if x.b6 == 1 then 64 else 0) | (if x.b7 == 1 then 128 else 0)
  }

  lemma UnbitsBits(x: Byte)
    ensures AesEcb.Bits(Unbits(x)) == x
  {
  }

  ghost function Bytes(b: Block): (s: seq<bv8>)
    ensures |s| == 16
  {
    seq(16, p requires 0 <= p < 16 => Unbits(b[p]))
  }

  lemma BlockBytes(b: Block)
    ensures BlockAt(Bytes(b), 0) == b
  {
    hide AesEcb.Bits, Unbits;
    forall p | 0 <= p < 16 ensures BlockAt(Bytes(b), 0)[p] == b[p] { UnbitsBits(b[p]); }
  }

  lemma SameBytes(s: seq<bv8>, t: seq<bv8>)
    requires |s| == 16 && |t| == 16 && BlockAt(s, 0) == BlockAt(t, 0)
    ensures s == t
  {
    hide AesEcb.Bits;
    forall p | 0 <= p < 16 ensures s[p] == t[p] {
      assert BlockAt(s, 0)[p] == BlockAt(t, 0)[p];
      BitsInjective(s[p], t[p]);
    }
  }

  /** The cipher on sixteen bytes, and its inverse. */
  ghost function Enc(k: Schedule, s: seq<bv8>): (r: seq<bv8>)
    requires |s| == 16
    ensures |r| == 16
  {
    Bytes(Cipher(Keys(k.sk, k.rounds, 0), BlockAt(s, 0)))
  }

  ghost function Dec(k: Schedule, s: seq<bv8>): (r: seq<bv8>)
    requires |s| == 16
    ensures |r| == 16
  {
    Bytes(InvCipher(Keys(k.sk, k.rounds, 0), BlockAt(s, 0)))
  }

  lemma EncDec(k: Schedule, s: seq<bv8>)
    requires |s| == 16
    ensures Dec(k, Enc(k, s)) == s && Enc(k, Dec(k, s)) == s
  {
    hide Bytes, BlockAt, Cipher, InvCipher, Keys;
    var keys := Keys(k.sk, k.rounds, 0);
    BlockBytes(Cipher(keys, BlockAt(s, 0)));
    BlockBytes(InvCipher(keys, BlockAt(s, 0)));
    CipherUndo(keys, BlockAt(s, 0));
    CipherRedo(keys, BlockAt(s, 0));
    BlockBytes(BlockAt(s, 0));
    SameBytes(Bytes(BlockAt(s, 0)), s);
  }

  /** aes_encrypt: one block, in place or not. */
  method Encrypt(k: Schedule, src: array<bv8>, dst: array<bv8>)
    requires src.Length >= 16 && dst.Length >= 16
    modifies dst
    ensures dst[..16] == Enc(k, old(src[..16]))
    ensures forall j :: 16 <= j < dst.Length ==> dst[j] == old(dst[j])
  {
    hide Bytes, BlockAt, Cipher, Keys;
    ghost var b := src[..16];
    SameBlock(src[..], b, 0);
    EncryptEcb(k.rounds, k.sk, src, dst, 1);
    BlockBytes(Cipher(Keys(k.sk, k.rounds, 0), BlockAt(b, 0)));
    assert BlockAt(dst[..], 16 * 0) == Cipher(Keys(k.sk, k.rounds, 0), BlockAt(old(src[..]), 16 * 0));
    SameBlock(dst[..], dst[..16], 0);
    SameBytes(dst[..16], Enc(k, b));
  }

  /** aes_decrypt */
  method Decrypt(k: Schedule, src: array<bv8>, dst: array<bv8>)
    requires src.Length >= 16 && dst.Length >= 16
    modifies dst
    ensures dst[..16] == Dec(k, old(src[..16]))
    ensures forall j :: 16 <= j < dst.Length ==> dst[j] == old(dst[j])
  {
    hide Bytes, BlockAt, InvCipher, Keys;
    ghost var b := src[..16];
    SameBlock(src[..], b, 0);
    DecryptEcb(k.rounds, k.sk, src, dst, 1);
    BlockBytes(InvCipher(Keys(k.sk, k.rounds, 0), BlockAt(b, 0)));
    assert BlockAt(dst[..], 16 * 0) == InvCipher(Keys(k.sk, k.rounds, 0), BlockAt(old(src[..]), 16 * 0));
    SameBlock(dst[..], dst[..16], 0);
    SameBytes(dst[..16], Dec(k, b));
  }

  /** Byte i of htobe64(t). */
  function BigEndian(t: nat, i: nat): (b: bv8)
    requires i < 8
  {
    ToByte((t / Powers.Pow2(56 - 8 * i)) % 256)
  }

  function Counter(t: nat): (h: Half)
  {
    seq(8, i requires 0 <= i < 8 => BigEndian(t, i))
  }

  lemma DivTwice(t: nat, a: nat)
    requires a > 0
    ensures t / (256 * a) == (t / a) / 256 && t / a == 256 * (t / (256 * a)) + (t / a) % 256
  {
    DivNonNeg(t, a);
    var q := t / a;
    var u, v := q / 256, q % 256;
    assert t == a * q + t % a;
    assert q == 256 * u + v;
    Distrib(a, 256 * u, v);
    Assoc(256, a, u);
    MulLe(a, v, 255);
    DivModUnique(t, 256 * a, u, a * v + t % a);
  }

  lemma {:induction false} CounterPrefix(t: nat, j: nat)
    requires j <= 8 && t < 0x1_0000_0000_0000_0000
    ensures BigVal(Counter(t)[..j]) == t / Powers.Pow2(64 - 8 * j)
    decreases j
  {
    hide BigEndian, ByteVal, ToByte, Powers.Pow2;
    if j == 0 {
      Powers.Pow2Literals();
      DivModUnique(t, 0x1_0000_0000_0000_0000, 0, t);
    } else {
      CounterPrefix(t, j - 1);
      var h, a := Counter(t)[..j], Powers.Pow2(64 - 8 * j);
      assert h[..j - 1] == Counter(t)[..j - 1];
      CounterByte(t, j - 1);
      Powers.Pow2Add(8, 64 - 8 * j);
      Powers.Pow2Literals();
      DivTwice(t, a);
      BigLast(h);
    }
  }

  lemma BigLast(h: seq<bv8>)
    requires h != []
    ensures BigVal(h) == 256 * BigVal(h[..|h| - 1]) + ByteVal(h[|h| - 1])
  {
    hide ByteVal;
  }

  lemma CounterByte(t: nat, i: nat)
    requires i < 8
    ensures ByteVal(BigEndian(t, i)) == (t / Powers.Pow2(56 - 8 * i)) % 256
  {
    hide ByteVal, ToByte, Powers.Pow2;
    ByteBack((t / Powers.Pow2(56 - 8 * i)) % 256);
  }

  /** The eight bytes are the counter, most significant first. */
  lemma CounterValue(t: nat)
    requires t < 0x1_0000_0000_0000_0000
    ensures BigVal(Counter(t)) == t
  {
    hide BigVal;
    CounterPrefix(t, 8);
    assert Counter(t)[..8] == Counter(t);
    assert Powers.Pow2(0) == 1;
  }

  function XorCounter(h: Half, t: nat): (r: Half)
  {
    seq(8, i requires 0 <= i < 8 => h[i] ^ BigEndian(t, i))
  }

  lemma XorCounterValue(h: Half, t: nat)
    requires t < 0x1_0000_0000_0000_0000
    ensures BigVal(XorCounter(h, t)) == Powers.Xor(BigVal(h), t)
  {
    hide BigVal, BigEndian, Powers.Xor;
    CounterValue(t);
    BigXor(h, Counter(t), XorCounter(h, t));
  }

  lemma XorCounterTwice(h: Half, t: nat)
    ensures XorCounter(XorCounter(h, t), t) == h
  {
    hide BigEndian;
  }

  /** The register A and the registers R[1] to R[n] of RFC 3394. */
  datatype Registers = Registers(a: Half, r: seq<Half>)

  /** Section 2.2.1 of RFC 3394: step t. */
  ghost function Step(k: Schedule, s: Registers, t: nat): (n: Registers)
    requires t >= 1 && |s.r| > 0
    ensures |n.r| == |s.r|
  {
    var i := (t - 1) % |s.r|;
    var b := Enc(k, s.a + s.r[i]);
    Registers(XorCounter(b[..8], t), s.r[i := b[8..]])
  }

  /** Section 2.2.2: step t undone. */
  ghost function Unstep(k: Schedule, s: Registers, t: nat): (n: Registers)
    requires t >= 1 && |s.r| > 0
    ensures |n.r| == |s.r|
  {
    var i := (t - 1) % |s.r|;
    var b := Dec(k, XorCounter(s.a, t) + s.r[i]);
    Registers(b[..8], s.r[i := b[8..]])
  }

  lemma StepUndo(k: Schedule, s: Registers, t: nat)
    requires t >= 1 && |s.r| > 0
    ensures Unstep(k, Step(k, s, t), t) == s
  {
    hide Enc, Dec, XorCounter;
    var i := (t - 1) % |s.r|;
    var b := Enc(k, s.a + s.r[i]);
    XorCounterTwice(b[..8], t);
    assert b[..8] + b[8..] == b;
    EncDec(k, s.a + s.r[i]);
    assert (s.a + s.r[i])[..8] == s.a && (s.a + s.r[i])[8..] == s.r[i];
    assert Step(k, s, t).r[i := s.r[i]] == s.r;
  }

  lemma StepRedo(k: Schedule, s: Registers, t: nat)
    requires t >= 1 && |s.r| > 0
    ensures Step(k, Unstep(k, s, t), t) == s
  {
    hide Enc, Dec, XorCounter;
    var i := (t - 1) % |s.r|;
    var x: seq<bv8> := XorCounter(s.a, t);
    var b := Dec(k, x + s.r[i]);
    XorCounterTwice(s.a, t);
    assert b[..8] + b[8..] == b;
    EncDec(k, x + s.r[i]);
    assert (x + s.r[i])[..8] == x && (x + s.r[i])[8..] == s.r[i];
    assert Unstep(k, s, t).r[i := s.r[i]] == s.r;
  }

  /** The first t steps. */
  ghost function Wrapped(k: Schedule, s: Registers, t: nat): (n: Registers)
    requires t == 0 || |s.r| > 0
    ensures |n.r| == |s.r|
  {
    if t == 0 then s else Step(k, Wrapped(k, s, t - 1), t)
  }

  /** The steps from t down to 1 undone. */
  ghost function Unwrapped(k: Schedule, s: Registers, t: nat): (n: Registers)
    requires t == 0 || |s.r| > 0
    ensures |n.r| == |s.r|
    decreases t
  {
    if t == 0 then s else Unwrapped(k, Unstep(k, s, t), t - 1)
  }

  lemma {:induction false} WrapUndo(k: Schedule, s: Registers, t: nat)
    requires t == 0 || |s.r| > 0
    ensures Unwrapped(k, Wrapped(k, s, t), t) == s
    decreases t
  {
    hide Step, Unstep;
    if t != 0 {
      StepUndo(k, Wrapped(k, s, t - 1), t);
      WrapUndo(k, s, t - 1);
    }
  }

  lemma {:induction false} WrapRedo(k: Schedule, s: Registers, t: nat)
    requires t == 0 || |s.r| > 0
    ensures Wrapped(k, Unwrapped(k, s, t), t) == s
    decreases t
  {
    hide Step, Unstep;
    if t != 0 {
      StepRedo(k, s, t);
      WrapRedo(k, Unstep(k, s, t), t - 1);
    }
  }

  /** The counter of step i of pass j over n registers, as in RFC 3394. */
  function Count(n: nat, j: nat, i: nat): (t: nat)
    ensures t >= 1
  {
    MulNonNeg(n, j);
    n * j + i + 1
  }

  /** One step on numbers: A and register i go through the cipher together, and the first
      half of what comes out, with the counter, is the new A. */
  ghost predicate StepsTo(k: Schedule, s: Registers, n: Registers, i: nat, t: nat)
  {
    && i < |s.r| == |n.r|
    && var b := Enc(k, s.a + s.r[i]);
       && BigVal(n.a) == Powers.Xor(BigVal(b[..8]), t)
       && n.r[i] == b[8..]
       && forall m :: 0 <= m < |s.r| && m != i ==> n.r[m] == s.r[m]
  }

  /** The registers before and after all the steps of section 2.2.1. */
  ghost predicate Rfc3394(k: Schedule, trace: seq<Registers>, n: nat)
  {
    && |trace| == 6 * n + 1 && (forall t :: 0 <= t < |trace| ==> |trace[t].r| == n)
    && BigVal(trace[0].a) == 0xA6A6_A6A6_A6A6_A6A6
    && forall j, i :: 0 <= j < 6 && 0 <= i < n ==>
         Count(n, j, i) <= 6 * n && StepsTo(k, trace[Count(n, j, i) - 1], trace[Count(n, j, i)], i, Count(n, j, i))
  }

  ghost function Trace(k: Schedule, key: seq<Half>): (trace: seq<Registers>)
    ensures |trace| == 6 * |key| + 1 && forall t :: 0 <= t < |trace| ==> |trace[t].r| == |key|
  {
    seq(6 * |key| + 1, t requires 0 <= t <= 6 * |key| => Wrapped(k, Registers(IV, key), t))
  }

  lemma StepStepsTo(k: Schedule, s: Registers, i: nat, j: nat)
    requires i < |s.r| && Count(|s.r|, j, i) < 0x1_0000_0000_0000_0000
    ensures StepsTo(k, s, Step(k, s, Count(|s.r|, j, i)), i, Count(|s.r|, j, i))
  {
    hide Enc, XorCounter, BigVal, Powers.Xor;
    var n, t := |s.r|, Count(|s.r|, j, i);
    DivModUnique(n * j + i, n, j, i);
    XorCounterValue(Enc(k, s.a + s.r[i])[..8], t);
  }

  /** n bytes 0xA6 as a number. */
  function Sixes(n: nat): (v: nat)
  {
    if n == 0 then 0 else 256 * Sixes(n - 1) + 0xA6
  }

  lemma {:induction false} InitialPrefix(n: nat)
    requires n <= 8
    ensures BigVal(IV[..n]) == Sixes(n)
  {
    hide ByteVal;
    if n != 0 {
      InitialPrefix(n - 1);
      ByteA6();
      assert IV[..n][..n - 1] == IV[..n - 1];
    }
  }

  lemma InitialValue()
    ensures BigVal(IV) == 0xA6A6_A6A6_A6A6_A6A6
  {
    hide BigVal;
    InitialPrefix(8);
    assert IV[..8] == IV;
    assert Sixes(4) == 0xA6A6_A6A6;
  }

  lemma ByteA6()
    ensures ByteVal(0xA6) == 0xA6
  {
    hide FromBits;
    assert BitsOf(0xA6) == [false, true, true, false, false, true, false, true];
    BitsA6();
  }

  lemma BitsA6()
    ensures FromBits([false, true, true, false, false, true, false, true]) == 0xA6
  {
    var s := [false, true, true, false, false, true, false, true];
    assert s[1..][1..][1..][1..] == [false, true, false, true];
    assert FromBits([true]) == 1 && FromBits([false, true]) == 2;
    assert FromBits([true, false, true]) == 5 && FromBits([false, true, false, true]) == 10;
    assert FromBits(s[1..][1..]) == 41;
  }

  /** The code's steps are those of RFC 3394, for any number of registers whose counter is
      a 64-bit number. */
  lemma TraceIsRfc(k: Schedule, key: seq<Half>)
    requires 6 * |key| < 0x1_0000_0000_0000_0000
    ensures Rfc3394(k, Trace(k, key), |key|)
  {
    hide StepsTo, Step, BigVal;
    var n, trace := |key|, Trace(k, key);
    InitialValue();
    forall j, i | 0 <= j < 6 && 0 <= i < n
      ensures Count(n, j, i) <= 6 * n && StepsTo(k, trace[Count(n, j, i) - 1], trace[Count(n, j, i)], i, Count(n, j, i))
    {
      MulLe(n, j, 5);
      StepStepsTo(k, trace[Count(n, j, i) - 1], i, j);
    }
  }

  /** aes_key_wrap as a function of the key data. */
  ghost function WrapOf(k: Schedule, key: seq<Half>): (c: Registers)
    ensures |c.r| == |key|
  {
    Wrapped(k, Registers(IV, key), 6 * |key|)
  }

  ghost function UnwrapOf(k: Schedule, c: Registers): (s: Registers)
    ensures |s.r| == |c.r|
  {
    Unwrapped(k, c, 6 * |c.r|)
  }

  /** Unwrapping a wrapped key passes the check and gives the key back. */
  lemma RoundTrip(k: Schedule, key: seq<Half>)
    ensures UnwrapOf(k, WrapOf(k, key)) == Registers(IV, key)
  {
    WrapUndo(k, Registers(IV, key), 6 * |key|);
  }

  /** Unwrapping passes the check for the wrappings of keys and for nothing else. */
  lemma AcceptsOnlyWrapped(k: Schedule, c: Registers)
    ensures UnwrapOf(k, c).a == IV <==> exists key :: WrapOf(k, key) == c
    ensures UnwrapOf(k, c).a == IV ==> WrapOf(k, UnwrapOf(k, c).r) == c
  {
    hide Wrapped, Unwrapped, WrapOf, UnwrapOf;
    if key: seq<Half> :| WrapOf(k, key) == c { RoundTrip(k, key); }
    if UnwrapOf(k, c).a == IV { Rewrapped(k, c); }
  }

  lemma Rewrapped(k: Schedule, c: Registers)
    requires UnwrapOf(k, c).a == IV
    ensures WrapOf(k, UnwrapOf(k, c).r) == c
  {
    hide Wrapped, Unwrapped;
    WrapRedo(k, c, 6 * |c.r|);
  }

  /** n registers of eight bytes, from a place in a buffer. */
  function Chunks(s: seq<bv8>, at: nat, n: nat): (r: seq<Half>)
    requires at + 8 * n <= |s|
    ensures |r| == n
  {
    seq(n, i requires 0 <= i < n => s[at + 8 * i..at + 8 * i + 8])
  }

  lemma ChunksPut(s: seq<bv8>, t: seq<bv8>, at: nat, n: nat, i: nat, h: Half)
    requires at + 8 * n <= |s| == |t| && i < n
    requires forall j :: 0 <= j < 8 ==> t[at + 8 * i + j] == h[j]
    requires forall j :: at <= j < at + 8 * n && !(at + 8 * i <= j < at + 8 * i + 8) ==> t[j] == s[j]
    ensures Chunks(t, at, n) == Chunks(s, at, n)[i := h]
  {
    forall m | 0 <= m < n ensures Chunks(t, at, n)[m] == Chunks(s, at, n)[i := h][m] {
      forall j | 0 <= j < 8 ensures Chunks(t, at, n)[m][j] == Chunks(s, at, n)[i := h][m][j] {
        assert at + 8 * m + j < at + 8 * n;
      }
    }
  }

  /** Nothing but a stretch of the buffer changed. */
  ghost predicate Outside(s: seq<bv8>, t: seq<bv8>, lo: int, hi: int)
  {
    |s| == |t| && forall m :: 0 <= m < |s| && !(lo <= m < hi) ==> s[m] == t[m]
  }

  lemma OutsideTwice(s: seq<bv8>, t: seq<bv8>, u: seq<bv8>, lo: int, hi: int)
    requires Outside(s, t, lo, hi) && Outside(t, u, lo, hi)
    ensures Outside(s, u, lo, hi)
  {
  }

  /** memcpy and memmove */
  method Copy(src: array<bv8>, p: nat, dst: array<bv8>, q: nat, len: nat)
    requires p + len <= src.Length && q + len <= dst.Length
    modifies dst
    ensures dst[q..q + len] == old(src[p..p + len])
    ensures forall j :: 0 <= j < dst.Length && !(q <= j < q + len) ==> dst[j] == old(dst[j])
  {
    forall j | 0 <= j < len { dst[q + j] := src[p + j]; }
  }

  /** The registers held in buffers: A in one, R[1] to R[n] in another or further on
      in the same one. */
  function Held(sa: seq<bv8>, a: nat, sr: seq<bv8>, r: nat, n: nat): (s: Registers)
    requires a + 8 <= |sa| && r + 8 * n <= |sr|
    ensures |s.r| == n
  {
    Registers(sa[a..a + 8], Chunks(sr, r, n))
  }

  /** B in the source: A, with or without the counter, and R[i]. */
  method LoadPair16(ra: array<bv8>, a: nat, rr: array<bv8>, at: nat) returns (b: array<bv8>)
    requires a + 8 <= ra.Length && at + 8 <= rr.Length
    ensures fresh(b) && b.Length == 16 && b[..] == ra[a..a + 8] + rr[at..at + 8]
  {
    b := new bv8[16];
    Copy(ra, a, b, 0, 8);
    ghost var h := b[0..8];
    Copy(rr, at, b, 8, 8);
    assert b[0..8] == h;
    assert b[..] == b[0..8] + b[8..16];
  }

  /** `B[0] ^= htobe64(t)` */
  method XorCounterAt(b: array<bv8>, t: nat)
    requires b.Length == 16
    modifies b
    ensures b[..] == XorCounter(old(b[..8]), t) + old(b[8..])
  {
    hide BigEndian;
    for i := 0 to 8
      invariant forall j :: 0 <= j < i ==> b[j] == old(b[j]) ^ BigEndian(t, j)
      invariant forall j :: i <= j < 16 ==> b[j] == old(b[j])
    {
      b[i] := b[i] ^ BigEndian(t, i);
    }
  }

  /** B written back to A and R[i]. */
  method StorePair16(b: array<bv8>, ra: array<bv8>, a: nat, rr: array<bv8>, r: nat, n: nat, i: nat)
    requires b.Length == 16 && b != ra && b != rr
    requires a + 8 <= ra.Length && r + 8 * n <= rr.Length && i < n
    requires ra == rr ==> a + 8 <= r
    modifies ra, rr
    ensures Held(ra[..], a, rr[..], r, n)
         == Registers(b[..8], old(Held(ra[..], a, rr[..], r, n)).r[i := b[8..]])
    ensures forall j :: 0 <= j < ra.Length && !(a <= j < a + 8) && (ra == rr ==> j < r || r + 8 * n <= j) ==>
              ra[j] == old(ra[j])
    ensures forall j :: 0 <= j < rr.Length && !(r <= j < r + 8 * n) && (ra == rr ==> j < a || a + 8 <= j) ==>
              rr[j] == old(rr[j])
  {
    hide Chunks;
    Copy(b, 0, ra, a, 8);
    ghost var h := ra[a..a + 8];
    Copy(b, 8, rr, r + 8 * i, 8);
    assert ra[a..a + 8] == h;
    forall j | 0 <= j < 8 ensures rr[r + 8 * i + j] == b[8..][j] {
      assert rr[r + 8 * i..r + 8 * i + 8][j] == b[8..16][j];
    }
    ChunksPut(old(rr[..]), rr[..], r, n, i, b[8..]);
  }

  /** Step t works on register i. */
  ghost predicate Visits(t: nat, n: nat, i: nat)
  {
    t >= 1 && i < n && (t - 1) % n == i
  }

  lemma VisitsBounds(t: nat, n: nat, i: nat)
    requires Visits(t, n, i)
    ensures t >= 1 && i < n
  {
  }

  lemma Turn(j: nat, n: nat, i: nat, base: nat)
    requires i < n && base == j * n
    ensures Visits(base + i + 1, n, i)
  {
    DivModUnique(j * n + i, n, j, i);
  }

  /** The body of the inner loop of aes_key_wrap. */
  method WrapStep(k: Schedule, dst: array<bv8>, c: nat, n: nat, i: nat, t: nat)
    requires c + 8 + 8 * n <= dst.Length && Visits(t, n, i)
    modifies dst
    ensures Held(dst[..], c, dst[..], c + 8, n) == Step(k, old(Held(dst[..], c, dst[..], c + 8, n)), t)
    ensures Outside(old(dst[..]), dst[..], c, c + 8 + 8 * n)
  {
    hide Enc, XorCounter;
    var b := LoadPair16(dst, c, dst, c + 8 + 8 * i);
    ghost var s := Held(dst[..], c, dst[..], c + 8, n);
    assert b[..16] == b[..] == s.a + s.r[i];
    Encrypt(k, b, b);
    ghost var e := b[..16];
    assert b[..8] == e[..8] && b[8..] == e[8..];
    XorCounterAt(b, t);
    assert b[..8] == XorCounter(e[..8], t) && b[8..] == e[8..];
    StorePair16(b, dst, c, dst, c + 8, n, i);
  }

  /** The body of the inner loop of aes_key_unwrap. */
  method UnwrapStep(k: Schedule, ra: array<bv8>, dst: array<bv8>, p: nat, n: nat, i: nat, t: nat)
    requires ra.Length == 8 && ra != dst && p + 8 * n <= dst.Length && Visits(t, n, i)
    modifies ra, dst
    ensures Held(ra[..], 0, dst[..], p, n) == Unstep(k, old(Held(ra[..], 0, dst[..], p, n)), t)
    ensures Outside(old(dst[..]), dst[..], p, p + 8 * n)
  {
    hide Dec, XorCounter;
    var b := LoadPair16(ra, 0, dst, p + 8 * i);
    ghost var s := Held(ra[..], 0, dst[..], p, n);
    assert b[..8] == s.a && b[8..] == s.r[i];
    XorCounterAt(b, t);
    assert b[..16] == b[..];
    Decrypt(k, b, b);
    ghost var e := b[..16];
    assert b[..8] == e[..8] && b[8..] == e[8..];
    StorePair16(b, ra, 0, dst, p, n, i);
  }

  /** The bytes at c of one buffer are the wrapping by RFC 3394 of the n eight-byte blocks
      at p of another. */
  ghost predicate WrapsTo(k: Schedule, from: seq<bv8>, p: nat, n: nat, to: seq<bv8>, c: nat)
    requires p + 8 * n <= |from| && c + 8 + 8 * n <= |to|
  {
    exists trace: seq<Registers> :: Rfc3394(k, trace, n) && Ends(trace, from, p, n, to, c)
  }

  ghost predicate Ends(trace: seq<Registers>, from: seq<bv8>, p: nat, n: nat, to: seq<bv8>, c: nat)
    requires p + 8 * n <= |from| && c + 8 + 8 * n <= |to|
    requires |trace| == 6 * n + 1 && forall t :: 0 <= t < |trace| ==> |trace[t].r| == n
  {
    && (forall i :: 0 <= i < n ==> trace[0].r[i] == from[p + 8 * i..p + 8 * i + 8])
    && to[c..c + 8] == trace[6 * n].a
    && (forall i :: 0 <= i < n ==> trace[6 * n].r[i] == to[c + 8 + 8 * i..c + 16 + 8 * i])
  }

  lemma WrapOfWraps(k: Schedule, from: seq<bv8>, p: nat, n: nat, to: seq<bv8>, c: nat)
    requires p + 8 * n <= |from| && c + 8 + 8 * n <= |to| && 6 * n < 0x1_0000_0000_0000_0000
    requires Held(to, c, to, c + 8, n) == WrapOf(k, Chunks(from, p, n))
    ensures WrapsTo(k, from, p, n, to, c)
  {
    hide Rfc3394, Wrapped;
    var key := Chunks(from, p, n);
    TraceIsRfc(k, key);
    var trace := Trace(k, key);
    Begin(k, Registers(IV, key));
    assert trace[6 * n] == Held(to, c, to, c + 8, n) && trace[0].r == key;
    assert Ends(trace, from, p, n, to, c);
  }

  /** aes_key_wrap: the source and the destination may overlap. */
  method Wrap(k: Schedule, src: array<bv8>, p: nat, n: nat, dst: array<bv8>, c: nat)
    requires p + 8 * n <= src.Length && c + 8 + 8 * n <= dst.Length
    modifies dst
    ensures Held(dst[..], c, dst[..], c + 8, n) == WrapOf(k, Chunks(old(src[..]), p, n))
    ensures 6 * n < 0x1_0000_0000_0000_0000 ==> WrapsTo(k, old(src[..]), p, n, dst[..], c)
    ensures Outside(old(dst[..]), dst[..], c, c + 8 + 8 * n)
  {
    hide Step, Wrapped, Held, Chunks, Outside, WrapsTo;
    ghost var from := src[..];
    ghost var s := Registers(IV, Chunks(src[..], p, n));
    StartWrap(src, p, n, dst, c);
    var t := 1;
    Begin(k, s);
    for j := 0 to 6
      invariant t == j * n + 1
      invariant Held(dst[..], c, dst[..], c + 8, n) == Wrapped(k, s, t - 1)
      invariant Outside(old(dst[..]), dst[..], c, c + 8 + 8 * n)
    {
      t := WrapPass(k, dst, c, n, t, j, s, old(dst[..]));
    }
    if 6 * n < 0x1_0000_0000_0000_0000 { WrapOfWraps(k, from, p, n, dst[..], c); }
  }

  method WrapOn(k: Schedule, dst: array<bv8>, c: nat, n: nat, i: nat, t: nat, ghost s: Registers, ghost from: seq<bv8>)
    requires c + 8 + 8 * n <= dst.Length && Visits(t, n, i) && |s.r| == n
    requires Held(dst[..], c, dst[..], c + 8, n) == Wrapped(k, s, t - 1) && Outside(from, dst[..], c, c + 8 + 8 * n)
    modifies dst
    ensures Held(dst[..], c, dst[..], c + 8, n) == Wrapped(k, s, t) && Outside(from, dst[..], c, c + 8 + 8 * n)
  {
    hide *;
    ghost var before := dst[..];
    VisitsBounds(t, n, i);
    More(k, s, t);
    WrapStep(k, dst, c, n, i, t);
    OutsideTwice(from, before, dst[..], c, c + 8 + 8 * n);
  }

  /** One pass over the registers. */
  method WrapPass(k: Schedule, dst: array<bv8>, c: nat, n: nat, t0: nat, ghost j: nat, ghost s: Registers,
                  ghost from: seq<bv8>)
    returns (t: nat)
    requires c + 8 + 8 * n <= dst.Length && t0 == j * n + 1 && |s.r| == n
    requires Held(dst[..], c, dst[..], c + 8, n) == Wrapped(k, s, t0 - 1) && Outside(from, dst[..], c, c + 8 + 8 * n)
    modifies dst
    ensures t == t0 + n && Held(dst[..], c, dst[..], c + 8, n) == Wrapped(k, s, t - 1)
    ensures Outside(from, dst[..], c, c + 8 + 8 * n)
  {
    hide Wrapped, Held, Outside, Visits;
    t := t0;
    for i := 0 to n
      invariant t == t0 + i
      invariant Held(dst[..], c, dst[..], c + 8, n) == Wrapped(k, s, t - 1) && Outside(from, dst[..], c, c + 8 + 8 * n)
    {
      Turn(j, n, i, t0 - 1);
      WrapOn(k, dst, c, n, i, t, s, from);
      t := t + 1;
    }
  }

  lemma Begin(k: Schedule, s: Registers)
    ensures Wrapped(k, s, 0) == s && Unwrapped(k, s, 0) == s
  {
  }

  lemma More(k: Schedule, s: Registers, t: nat)
    requires t >= 1 && |s.r| > 0
    ensures Wrapped(k, s, t) == Step(k, Wrapped(k, s, t - 1), t)
    ensures Unwrapped(k, s, t) == Unwrapped(k, Unstep(k, s, t), t - 1)
  {
    hide Step, Unstep;
  }

  /** The key data is moved to its place and A set, in that order. */
  method StartWrap(src: array<bv8>, p: nat, n: nat, dst: array<bv8>, c: nat)
    requires p + 8 * n <= src.Length && c + 8 + 8 * n <= dst.Length
    modifies dst
    ensures Held(dst[..], c, dst[..], c + 8, n) == Registers(IV, Chunks(old(src[..]), p, n))
    ensures Outside(old(dst[..]), dst[..], c, c + 8 + 8 * n)
  {
    hide Chunks;
    ghost var from := src[..];
    Copy(src, p, dst, c + 8, 8 * n);
    ghost var to := dst[..];
    SameChunks(from, p, to, c + 8, n);
    var iv := new bv8[8](i requires 0 <= i < 8 => IV[i]);
    Copy(iv, 0, dst, c, 8);
    assert dst[c..c + 8] == iv[0..8] == IV;
    SameChunks(to, c + 8, dst[..], c + 8, n);
  }

  lemma SameChunks(s: seq<bv8>, a: nat, t: seq<bv8>, b: nat, n: nat)
    requires a + 8 * n <= |s| && b + 8 * n <= |t|
    requires s[a..a + 8 * n] == t[b..b + 8 * n]
    ensures Chunks(s, a, n) == Chunks(t, b, n)
  {
    forall i | 0 <= i < n ensures Chunks(s, a, n)[i] == Chunks(t, b, n)[i] {
      forall j | 0 <= j < 8 ensures Chunks(s, a, n)[i][j] == Chunks(t, b, n)[i][j] {
        assert s[a..a + 8 * n][8 * i + j] == t[b..b + 8 * n][8 * i + j];
      }
    }
  }

  /** aes_key_unwrap: zero when the check value is right. */
  method Unwrap(k: Schedule, src: array<bv8>, c: nat, dst: array<bv8>, p: nat, n: nat) returns (ret: int)
    requires c + 8 + 8 * n <= src.Length && p + 8 * n <= dst.Length
    modifies dst
    ensures Chunks(dst[..], p, n) == UnwrapOf(k, old(Held(src[..], c, src[..], c + 8, n))).r
    ensures ret == if UnwrapOf(k, old(Held(src[..], c, src[..], c + 8, n))).a == IV then 0 else 1
    ensures ret == 0 && 6 * n < 0x1_0000_0000_0000_0000 ==> WrapsTo(k, dst[..], p, n, old(src[..]), c)
    ensures Outside(old(dst[..]), dst[..], p, p + 8 * n)
  {
    hide Unstep, Unwrapped, Held, Chunks, UnwrapOf, WrapOf, Outside, WrapsTo;
    ghost var code := src[..];
    ghost var s := Held(src[..], c, src[..], c + 8, n);
    var ra := StartUnwrap(src, c, dst, p, n);
    var t := 6 * n;
    Unstarted(k, s);
    var j := 6;
    while j > 0
      invariant 0 <= j <= 6 && t == j * n && fresh(ra)
      invariant Unwrapped(k, Held(ra[..], 0, dst[..], p, n), t) == UnwrapOf(k, s)
      invariant Outside(old(dst[..]), dst[..], p, p + 8 * n)
    {
      j := j - 1;
      t := UnwrapPass(k, ra, dst, p, n, t, j, UnwrapOf(k, s), old(dst[..]));
    }
    Begin(k, Held(ra[..], 0, dst[..], p, n));
    HeldParts(ra[..], dst[..], p, n);
    ret := if ra[..] == IV then 0 else 1;
    if ret == 0 && 6 * n < 0x1_0000_0000_0000_0000 {
      Rewrapped(k, s);
      WrapOfWraps(k, dst[..], p, n, code, c);
    }
  }

  lemma Unstarted(k: Schedule, s: Registers)
    ensures UnwrapOf(k, s) == Unwrapped(k, s, 6 * |s.r|)
  {
    hide Unwrapped;
  }

  /** What is left to undo comes to the same result after a step as before it. */
  method UnwrapOn(k: Schedule, ra: array<bv8>, dst: array<bv8>, p: nat, n: nat, i: nat, t: nat,
                  ghost goal: Registers, ghost from: seq<bv8>)
    requires ra.Length == 8 && ra != dst && p + 8 * n <= dst.Length && Visits(t, n, i)
    requires Unwrapped(k, Held(ra[..], 0, dst[..], p, n), t) == goal && Outside(from, dst[..], p, p + 8 * n)
    modifies ra, dst
    ensures Unwrapped(k, Held(ra[..], 0, dst[..], p, n), t - 1) == goal && Outside(from, dst[..], p, p + 8 * n)
  {
    hide *;
    ghost var before := dst[..];
    VisitsBounds(t, n, i);
    More(k, Held(ra[..], 0, dst[..], p, n), t);
    UnwrapStep(k, ra, dst, p, n, i, t);
    OutsideTwice(from, before, dst[..], p, p + 8 * n);
  }

  /** One pass over the registers, backwards. */
  method UnwrapPass(k: Schedule, ra: array<bv8>, dst: array<bv8>, p: nat, n: nat, t0: nat, ghost j: nat,
                    ghost goal: Registers, ghost from: seq<bv8>)
    returns (t: nat)
    requires ra.Length == 8 && ra != dst && p + 8 * n <= dst.Length && t0 == j * n + n
    requires Unwrapped(k, Held(ra[..], 0, dst[..], p, n), t0) == goal && Outside(from, dst[..], p, p + 8 * n)
    modifies ra, dst
    ensures t == j * n
    ensures Unwrapped(k, Held(ra[..], 0, dst[..], p, n), t) == goal && Outside(from, dst[..], p, p + 8 * n)
  {
    hide Unwrapped, Held, Outside, Visits;
    ghost var base := j * n;
    t := t0;
    var i := n;
    while i > 0
      invariant 0 <= i <= n && t == base + i
      invariant Unwrapped(k, Held(ra[..], 0, dst[..], p, n), t) == goal && Outside(from, dst[..], p, p + 8 * n)
    {
      i := i - 1;
      Turn(j, n, i, base);
      UnwrapOn(k, ra, dst, p, n, i, t, goal, from);
      t := t - 1;
    }
  }

  lemma HeldParts(sa: seq<bv8>, sr: seq<bv8>, p: nat, n: nat)
    requires |sa| == 8 && p + 8 * n <= |sr|
    ensures Held(sa, 0, sr, p, n) == Registers(sa, Chunks(sr, p, n))
  {
  }

  /** A is taken before the registers move. */
  method StartUnwrap(src: array<bv8>, c: nat, dst: array<bv8>, p: nat, n: nat) returns (ra: array<bv8>)
    requires c + 8 + 8 * n <= src.Length && p + 8 * n <= dst.Length
    modifies dst
    ensures fresh(ra) && ra.Length == 8
    ensures Held(ra[..], 0, dst[..], p, n) == old(Held(src[..], c, src[..], c + 8, n))
    ensures Outside(old(dst[..]), dst[..], p, p + 8 * n)
  {
    hide Chunks;
    ghost var from := src[..];
    ra := new bv8[8];
    Copy(src, c, ra, 0, 8);
    ghost var a := ra[0..8];
    Copy(src, c + 8, dst, p, 8 * n);
    assert ra[..] == a == from[c..c + 8];
    SameChunks(from, c + 8, dst[..], p, n);
  }

  /** A key wrapped and unwrapped again, through any buffers: success, and its bytes. */
  method WrapUnwrap(k: Schedule, src: array<bv8>, p: nat, n: nat, mid: array<bv8>, c: nat, dst: array<bv8>, q: nat)
    returns (ret: int)
    requires p + 8 * n <= src.Length && c + 8 + 8 * n <= mid.Length && q + 8 * n <= dst.Length
    modifies mid, dst
    ensures ret == 0 && dst[q..q + 8 * n] == old(src[p..p + 8 * n])
  {
    hide Chunks, Held, WrapOf, UnwrapOf, Outside;
    ghost var from := src[..];
    Wrap(k, src, p, n, mid, c);
    RoundTrip(k, Chunks(from, p, n));
    ret := Unwrap(k, mid, c, dst, q, n);
    ChunksBytes(dst[..], q, from, p, n);
  }

  lemma ChunksBytes(s: seq<bv8>, a: nat, t: seq<bv8>, b: nat, n: nat)
    requires a + 8 * n <= |s| && b + 8 * n <= |t| && Chunks(s, a, n) == Chunks(t, b, n)
    ensures s[a..a + 8 * n] == t[b..b + 8 * n]
  {
    var u, v := s[a..a + 8 * n], t[b..b + 8 * n];
    forall j | 0 <= j < 8 * n ensures u[j] == v[j] {
      var i := j / 8;
      assert Chunks(s, a, n)[i][j % 8] == Chunks(t, b, n)[i][j % 8];
      assert 8 * i + j % 8 == j;
    }
  }
}
