/** crypto/aes.c: bitsliced encryption and decryption of two blocks at a time. */
module Aes {
  import opened AesBlock
  import opened AesLayers
  import opened AesPlace
  import opened AesSlice

  /** The eight words of a state array. */
  function Load(q: array<bv32>): (s: Words)
    requires q.Length == 8
    reads q
  {
    Words(q[0], q[1], q[2], q[3], q[4], q[5], q[6], q[7])
  }

  method Store(q: array<bv32>, s: Words)
    requires q.Length == 8
    modifies q
    ensures Load(q) == s
  {
    q[0], q[1], q[2], q[3] := s.w0, s.w1, s.w2, s.w3;
    q[4], q[5], q[6], q[7] := s.w4, s.w5, s.w6, s.w7;
  }

  /** shift_rows */
  method ShiftRowsAt(q: array<bv32>)
    requires q.Length == 8
    modifies q
    ensures Load(q) == ShiftWords(old(Load(q)))
  {
    hide ShiftWord;
    for i := 0 to 8
      invariant forall k :: 0 <= k < i ==> q[k] == ShiftWord(old(q[k]))
      invariant forall k :: i <= k < 8 ==> q[k] == old(q[k])
    {
      q[i] := ShiftWord(q[i]);
    }
  }

  /** inv_shift_rows */
  method InvShiftRowsAt(q: array<bv32>)
    requires q.Length == 8
    modifies q
    ensures Load(q) == InvShiftWords(old(Load(q)))
  {
    hide InvShiftWord;
    for i := 0 to 8
      invariant forall k :: 0 <= k < i ==> q[k] == InvShiftWord(old(q[k]))
      invariant forall k :: i <= k < 8 ==> q[k] == old(q[k])
    {
      q[i] := InvShiftWord(q[i]);
    }
  }

  /** The eight words of round key u. */
  function KeyWords(sk: seq<bv32>, u: nat): (k: Words)
    requires 8 * u + 8 <= |sk|
  {
    Words(sk[8 * u], sk[8 * u + 1], sk[8 * u + 2], sk[8 * u + 3],
          sk[8 * u + 4], sk[8 * u + 5], sk[8 * u + 6], sk[8 * u + 7])
  }

  /** The round keys that an expanded key holds for block l. */
  ghost function Keys(sk: seq<bv32>, rounds: nat, l: nat): (keys: seq<Block>)
    requires l < 2 && 8 * rounds + 8 <= |sk|
    ensures |keys| == rounds + 1
  {
    seq(rounds + 1, u requires 0 <= u <= rounds => BlockOf(KeyWords(sk, u), l))
  }

  /** Both blocks of a state, against a pair of expected blocks. */
  ghost predicate Holds(q: array<bv32>, b0: Block, b1: Block)
    requires q.Length == 8
    reads q
  {
    BlockOf(Load(q), 0) == b0 && BlockOf(Load(q), 1) == b1
  }

  /** add_round_key */
  method AddKey(q: array<bv32>, sk: seq<bv32>, u: nat, ghost b0: Block, ghost b1: Block)
    requires q.Length == 8 && 8 * u + 8 <= |sk| && Holds(q, b0, b1)
    modifies q
    ensures Holds(q, AddRoundKey(b0, BlockOf(KeyWords(sk, u), 0)), AddRoundKey(b1, BlockOf(KeyWords(sk, u), 1)))
  {
    hide BlockOf, AddRoundKey, AddWords;
    AddBlock(Load(q), KeyWords(sk, u), 0);
    AddBlock(Load(q), KeyWords(sk, u), 1);
    Store(q, AddWords(Load(q), KeyWords(sk, u)));
  }

  /** aes_ct_bitslice_sbox and shift_rows */
  method SubAndShift(q: array<bv32>, ghost b0: Block, ghost b1: Block)
    requires q.Length == 8 && Holds(q, b0, b1)
    modifies q
    ensures Holds(q, ShiftRows(SubBytes(b0)), ShiftRows(SubBytes(b1)))
  {
    hide BlockOf, SubBytes, ShiftRows, Sbox, ShiftWords;
    ghost var s := Sbox(Load(q));
    SboxBlock(Load(q), 0);
    SboxBlock(Load(q), 1);
    Store(q, Sbox(Load(q)));
    ShiftBlock(s, 0);
    ShiftBlock(s, 1);
    ShiftRowsAt(q);
  }

  /** inv_shift_rows and aes_ct_bitslice_invsbox */
  method UnshiftAndSub(q: array<bv32>, ghost b0: Block, ghost b1: Block)
    requires q.Length == 8 && Holds(q, b0, b1)
    modifies q
    ensures Holds(q, InvSubBytes(InvShiftRows(b0)), InvSubBytes(InvShiftRows(b1)))
  {
    hide BlockOf, InvSubBytes, InvShiftRows, InvSbox, InvShiftWords;
    ShiftBlock(Load(q), 0);
    ShiftBlock(Load(q), 1);
    InvShiftRowsAt(q);
    SboxBlock(Load(q), 0);
    SboxBlock(Load(q), 1);
    Store(q, InvSbox(Load(q)));
  }

  /** aes_ct_bitslice_encrypt: both blocks go through the cipher of FIPS 197. */
  method BitsliceEncrypt(rounds: nat, sk: seq<bv32>, q: array<bv32>, ghost b0: Block, ghost b1: Block)
    requires rounds >= 1 && 8 * rounds + 8 <= |sk| && q.Length == 8 && Holds(q, b0, b1)
    modifies q
    ensures Holds(q, Cipher(Keys(sk, rounds, 0), b0), Cipher(Keys(sk, rounds, 1), b1))
  {
    hide BlockOf, SubBytes, ShiftRows, MixColumns, AddRoundKey, Mix, Holds;
    ghost var k0, k1 := Keys(sk, rounds, 0), Keys(sk, rounds, 1);
    AddKey(q, sk, 0, b0, b1);
    var u := 1;
    while u < rounds
      invariant 1 <= u <= rounds
      invariant Holds(q, Rounds(k0, b0, u - 1), Rounds(k1, b1, u - 1))
    {
      ghost var s0, s1 := ShiftRows(SubBytes(Rounds(k0, b0, u - 1))), ShiftRows(SubBytes(Rounds(k1, b1, u - 1)));
      SubAndShift(q, Rounds(k0, b0, u - 1), Rounds(k1, b1, u - 1));
      MixAt(q, s0, s1);
      AddKey(q, sk, u, MixColumns(s0), MixColumns(s1));
      u := u + 1;
    }
    SubAndShift(q, Rounds(k0, b0, rounds - 1), Rounds(k1, b1, rounds - 1));
    AddKey(q, sk, rounds, ShiftRows(SubBytes(Rounds(k0, b0, rounds - 1))),
           ShiftRows(SubBytes(Rounds(k1, b1, rounds - 1))));
  }

  /** mix_columns */
  method MixAt(q: array<bv32>, ghost b0: Block, ghost b1: Block)
    requires q.Length == 8 && Holds(q, b0, b1)
    modifies q
    ensures Holds(q, MixColumns(b0), MixColumns(b1))
  {
    hide BlockOf, MixColumns, Mix;
    MixBlock(Load(q), 0);
    MixBlock(Load(q), 1);
    Store(q, Mix(Load(q)));
  }

  /** inv_mix_columns */
  method InvMixAt(q: array<bv32>, ghost b0: Block, ghost b1: Block)
    requires q.Length == 8 && Holds(q, b0, b1)
    modifies q
    ensures Holds(q, InvMixColumns(b0), InvMixColumns(b1))
  {
    hide BlockOf, InvMixColumns, InvMix;
    MixBlock(Load(q), 0);
    MixBlock(Load(q), 1);
    Store(q, InvMix(Load(q)));
  }

  /** aes_ct_bitslice_decrypt: both blocks go through the inverse cipher. */
  method BitsliceDecrypt(rounds: nat, sk: seq<bv32>, q: array<bv32>, ghost b0: Block, ghost b1: Block)
    requires rounds >= 1 && 8 * rounds + 8 <= |sk| && q.Length == 8 && Holds(q, b0, b1)
    modifies q
    ensures Holds(q, InvCipher(Keys(sk, rounds, 0), b0), InvCipher(Keys(sk, rounds, 1), b1))
  {
    hide BlockOf, InvSubBytes, InvShiftRows, InvMixColumns, AddRoundKey, Holds;
    ghost var k0, k1 := Keys(sk, rounds, 0), Keys(sk, rounds, 1);
    AddKey(q, sk, rounds, b0, b1);
    var u := rounds - 1;
    while u > 0
      invariant 0 <= u < rounds
      invariant Holds(q, InvRounds(k0, b0, u + 1), InvRounds(k1, b1, u + 1))
    {
      ghost var s0, s1 := InvRounds(k0, b0, u + 1), InvRounds(k1, b1, u + 1);
      UnshiftAndSub(q, s0, s1);
      ghost var t0, t1 := InvSubBytes(InvShiftRows(s0)), InvSubBytes(InvShiftRows(s1));
      AddKey(q, sk, u, t0, t1);
      InvMixAt(q, AddRoundKey(t0, k0[u]), AddRoundKey(t1, k1[u]));
      u := u - 1;
    }
    UnshiftAndSub(q, InvRounds(k0, b0, 1), InvRounds(k1, b1, 1));
    AddKey(q, sk, 0, InvSubBytes(InvShiftRows(InvRounds(k0, b0, 1))), InvSubBytes(InvShiftRows(InvRounds(k1, b1, 1))));
  }
}
