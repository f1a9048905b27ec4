/** crypto/aes.c: the ECB loops over a buffer of any number of blocks. */
module AesEcb {
  import opened Aes
  import opened AesBlock
  import opened AesByte
  import opened AesFips
  import opened AesLayers
  import opened AesPlace
  import opened AesSlice

  /** The bits of a byte in a buffer. */
  ghost function Bits(b: bv8): (r: Byte)
  {
    Byte(if b & 1 != 0 then 1 else 0, if b & 2 != 0 then 1 else 0,
         if b & 4 != 0 then 1 else 0, if b & 8 != 0 then 1 else 0,
         if b & 16 != 0 then 1 else 0, if b & 32 != 0 then 1 else 0,
         if b & 64 != 0 then 1 else 0, if b & 128 != 0 then 1 else 0)
  }

  lemma BitsInjective(a: bv8, b: bv8)
    requires Bits(a) == Bits(b)
    ensures a == b
  {
  }

  /** dec32le */
  function Decode(b0: bv8, b1: bv8, b2: bv8, b3: bv8): (x: bv32)
  {
    (b0 as bv32) | ((b1 as bv32) << 8) | ((b2 as bv32) << 16) | ((b3 as bv32) << 24)
  }

  lemma DecodeBytes(b0: bv8, b1: bv8, b2: bv8, b3: bv8)
    ensures ByteAt(Decode(b0, b1, b2, b3), 1) == Bits(b0)
    ensures ByteAt(Decode(b0, b1, b2, b3), 0x100) == Bits(b1)
    ensures ByteAt(Decode(b0, b1, b2, b3), 0x1_0000) == Bits(b2)
    ensures ByteAt(Decode(b0, b1, b2, b3), 0x100_0000) == Bits(b3)
  {
  }

  lemma EncodeBytes(x: bv32)
    ensures Bits((x & 0xFF) as bv8) == ByteAt(x, 1)
    ensures Bits(((x >> 8) & 0xFF) as bv8) == ByteAt(x, 0x100)
    ensures Bits(((x >> 16) & 0xFF) as bv8) == ByteAt(x, 0x1_0000)
    ensures Bits(((x >> 24) & 0xFF) as bv8) == ByteAt(x, 0x100_0000)
  {
  }

  /** enc32le */
  method Encode(dst: array<bv8>, at: nat, x: bv32)
    requires at + 4 <= dst.Length
    modifies dst
    ensures forall r :: 0 <= r < 4 ==> Bits(dst[at + r]) == ByteAt(x, Base(r))
    ensures forall k :: 0 <= k < dst.Length && !(at <= k < at + 4) ==> dst[k] == old(dst[k])
  {
    hide Bits, ByteAt;
    EncodeBytes(x);
    dst[at] := (x & 0xFF) as bv8;
    dst[at + 1] := ((x >> 8) & 0xFF) as bv8;
    dst[at + 2] := ((x >> 16) & 0xFF) as bv8;
    dst[at + 3] := ((x >> 24) & 0xFF) as bv8;
  }

  /** The block that starts at a byte of a buffer. */
  ghost function BlockAt(s: seq<bv8>, at: nat): (b: Block)
    requires at + 16 <= |s|
  {
    var b := seq(16, p requires 0 <= p < 16 => Bits(s[at + p]));
    assert |b| == 16;
    b
  }

  function Word(s: seq<bv8>, at: nat): (x: bv32)
    requires at + 4 <= |s|
  {
    Decode(s[at], s[at + 1], s[at + 2], s[at + 3])
  }

  lemma WordBytes(s: seq<bv8>, at: nat, r: nat)
    requires at + 4 <= |s| && r < 4
    ensures ByteAt(Word(s, at), Base(r)) == Bits(s[at + r])
  {
    hide ByteAt, Bits, Decode;
    DecodeBytes(s[at], s[at + 1], s[at + 2], s[at + 3]);
  }

  /** Four words in a lane are a block once transposed. */
  lemma LoadBlock(q: Words, l: nat, s: seq<bv8>, at: nat)
    requires l < 2 && at + 16 <= |s|
    requires forall c :: 0 <= c < 4 ==> WordOf(q, l, c) == Word(s, at + 4 * c)
    ensures BlockOf(Ortho(q), l) == BlockAt(s, at)
  {
    hide Lane, Ortho, Place, ByteAt, Bits, Word, WordOf, Base;
    forall p | 0 <= p < 16 ensures BlockOf(Ortho(q), l)[p] == BlockAt(s, at)[p] {
      OrthoPlace(q, l, p);
      WordBytes(s, at + 4 * (p / 4), p % 4);
      assert at + 4 * (p / 4) + p % 4 == at + p;
    }
  }

  /** The start of a turn of the ECB loops: one block or two, transposed. */
  method LoadPair(src: array<bv8>, at: nat, two: bool) returns (q: array<bv32>, ghost b1: Block)
    requires at + 16 <= src.Length && (two ==> at + 32 <= src.Length)
    ensures fresh(q) && q.Length == 8
    ensures Holds(q, BlockAt(src[..], at), b1)
    ensures two ==> b1 == BlockAt(src[..], at + 16)
  {
    hide Lane, Ortho, Place, Word, BlockOf, BlockAt;
    ghost var s := src[..];
    var w := Words(Word(src[..], at), 0, Word(src[..], at + 4), 0, Word(src[..], at + 8), 0, Word(src[..], at + 12), 0);
    if two {
      w := w.(w1 := Word(src[..], at + 16), w3 := Word(src[..], at + 20),
              w5 := Word(src[..], at + 24), w7 := Word(src[..], at + 28));
      LoadBlock(w, 1, s, at + 16);
    }
    LoadBlock(w, 0, s, at);
    q := new bv32[8];
    Store(q, Ortho(w));
    b1 := BlockOf(Load(q), 1);
  }

  /** The four words of one lane, written out. */
  method StoreBlock(w: Words, l: nat, dst: array<bv8>, at: nat)
    requires l < 2 && at + 16 <= dst.Length
    modifies dst
    ensures BlockAt(dst[..], at) == BlockOf(Ortho(w), l)
    ensures forall k :: 0 <= k < dst.Length && !(at <= k < at + 16) ==> dst[k] == old(dst[k])
  {
    hide Lane, Ortho, Place, ByteAt, Bits, Base;
    Encode(dst, at, WordOf(w, l, 0));
    Encode(dst, at + 4, WordOf(w, l, 1));
    Encode(dst, at + 8, WordOf(w, l, 2));
    Encode(dst, at + 12, WordOf(w, l, 3));
    forall p | 0 <= p < 16 ensures BlockAt(dst[..], at)[p] == BlockOf(Ortho(w), l)[p] {
      OrthoPlace(w, l, p);
      assert at + 4 * (p / 4) + p % 4 == at + p;
    }
  }

  /** The end of a turn. */
  method StorePair(q: array<bv32>, dst: array<bv8>, at: nat, two: bool, ghost b0: Block, ghost b1: Block)
    requires q.Length == 8 && at + 16 <= dst.Length && (two ==> at + 32 <= dst.Length)
    requires Holds(q, b0, b1)
    modifies dst
    ensures BlockAt(dst[..], at) == b0 && (two ==> BlockAt(dst[..], at + 16) == b1)
    ensures forall k :: 0 <= k < dst.Length && !(at <= k < at + (if two then 32 else 16)) ==> dst[k] == old(dst[k])
  {
    hide Ortho, BlockOf, Bits;
    var w := Ortho(Load(q));
    OrthoInvolution(Load(q));
    StoreBlock(w, 0, dst, at);
    if two {
      ghost var s := dst[..];
      StoreBlock(w, 1, dst, at + 16);
      assert BlockAt(dst[..], at) == BlockAt(s, at);
    }
  }

  lemma SameBlock(s: seq<bv8>, t: seq<bv8>, at: nat)
    requires at + 16 <= |s| && at + 16 <= |t|
    requires forall k :: at <= k < at + 16 ==> s[k] == t[k]
    ensures BlockAt(s, at) == BlockAt(t, at)
  {
    hide Bits;
  }

  /** Block i of `to` is the cipher of block i of `from`, for the first n blocks. */
  ghost predicate Encrypted(rounds: nat, sk: seq<bv32>, from: seq<bv8>, to: seq<bv8>, n: nat)
    requires rounds >= 1 && 8 * rounds + 8 <= |sk| && 16 * n <= |from| && 16 * n <= |to|
  {
    forall i :: 0 <= i < n ==> BlockAt(to, 16 * i) == Cipher(Keys(sk, rounds, i % 2), BlockAt(from, 16 * i))
  }

  /** Block i of `to` is what section 5.1 of FIPS 197 makes of block i of `from`. */
  ghost predicate Enciphered(rounds: nat, sk: seq<bv32>, from: seq<bv8>, to: seq<bv8>, n: nat)
    requires rounds >= 1 && 8 * rounds + 8 <= |sk| && 16 * n <= |from| && 16 * n <= |to|
  {
    forall i :: 0 <= i < n ==> EnciphersTo(Keys(sk, rounds, i % 2), BlockAt(from, 16 * i), BlockAt(to, 16 * i))
  }

  lemma EncryptedIs(rounds: nat, sk: seq<bv32>, from: seq<bv8>, to: seq<bv8>, n: nat)
    requires rounds >= 1 && 8 * rounds + 8 <= |sk| && 16 * n <= |from| && 16 * n <= |to|
    requires Encrypted(rounds, sk, from, to, n)
    ensures Enciphered(rounds, sk, from, to, n)
  {
    hide Cipher, Keys, BlockAt, EnciphersTo;
    forall i | 0 <= i < n
      ensures EnciphersTo(Keys(sk, rounds, i % 2), BlockAt(from, 16 * i), BlockAt(to, 16 * i))
    {
      CipherTo(Keys(sk, rounds, i % 2), BlockAt(from, 16 * i));
    }
  }

  /** aes_encrypt_ecb, in place or not. */
  method EncryptEcb(rounds: nat, sk: seq<bv32>, src: array<bv8>, dst: array<bv8>, numBlocks: nat)
    requires rounds >= 1 && 8 * rounds + 8 <= |sk|
    requires 16 * numBlocks <= src.Length && 16 * numBlocks <= dst.Length
    modifies dst
    ensures Encrypted(rounds, sk, old(src[..]), dst[..], numBlocks)
    ensures Enciphered(rounds, sk, old(src[..]), dst[..], numBlocks)
    ensures forall k :: 16 * numBlocks <= k < dst.Length ==> dst[k] == old(dst[k])
  {
    hide Cipher, Keys, BlockAt, Holds, Enciphered;
    var n, at := numBlocks, 0;
    ghost var from := src[..];
    while n > 0
      invariant 0 <= n <= numBlocks && at == 16 * (numBlocks - n) && at % 32 == 0
      invariant Encrypted(rounds, sk, from, dst[..], numBlocks - n)
      invariant forall k :: at <= k < src.Length ==> src[k] == from[k]
      invariant forall k :: 16 * numBlocks <= k < dst.Length ==> dst[k] == old(dst[k])
    {
      ghost var done, before := numBlocks - n, dst[..];
      var two := n > 1;
      var q, b1 := LoadPair(src, at, two);
      ghost var b0 := BlockAt(src[..], at);
      SameBlock(src[..], from, at);
      if two {
        SameBlock(src[..], from, at + 16);
      }
      BitsliceEncrypt(rounds, sk, q, b0, b1);
      StorePair(q, dst, at, two, Cipher(Keys(sk, rounds, 0), b0), Cipher(Keys(sk, rounds, 1), b1));
      forall i | 0 <= i < done ensures BlockAt(dst[..], 16 * i) == BlockAt(before, 16 * i) {
        SameBlock(dst[..], before, 16 * i);
      }
      if two {
        at := at + 32;
        n := n - 2;
      } else {
        break;
      }
    }
    EncryptedIs(rounds, sk, from, dst[..], numBlocks);
  }

  /** Block i of `to` is the inverse cipher of block i of `from`, for the first n blocks. */
  ghost predicate Decrypted(rounds: nat, sk: seq<bv32>, from: seq<bv8>, to: seq<bv8>, n: nat)
    requires rounds >= 1 && 8 * rounds + 8 <= |sk| && 16 * n <= |from| && 16 * n <= |to|
  {
    forall i :: 0 <= i < n ==> BlockAt(to, 16 * i) == InvCipher(Keys(sk, rounds, i % 2), BlockAt(from, 16 * i))
  }

  lemma DecryptedIs(rounds: nat, sk: seq<bv32>, from: seq<bv8>, to: seq<bv8>, n: nat)
    requires rounds >= 1 && 8 * rounds + 8 <= |sk| && 16 * n <= |from| && 16 * n <= |to|
    requires Decrypted(rounds, sk, from, to, n)
    ensures Enciphered(rounds, sk, to, from, n)
  {
    hide Cipher, InvCipher, Keys, BlockAt, EnciphersTo, Enciphered;
    forall i | 0 <= i < n
      ensures BlockAt(from, 16 * i) == Cipher(Keys(sk, rounds, i % 2), BlockAt(to, 16 * i))
    {
      CipherRedo(Keys(sk, rounds, i % 2), BlockAt(from, 16 * i));
    }
    EncryptedIs(rounds, sk, to, from, n);
  }

  /** aes_decrypt_ecb, in place or not. */
  method DecryptEcb(rounds: nat, sk: seq<bv32>, src: array<bv8>, dst: array<bv8>, numBlocks: nat)
    requires rounds >= 1 && 8 * rounds + 8 <= |sk|
    requires 16 * numBlocks <= src.Length && 16 * numBlocks <= dst.Length
    modifies dst
    ensures Decrypted(rounds, sk, old(src[..]), dst[..], numBlocks)
    ensures Enciphered(rounds, sk, dst[..], old(src[..]), numBlocks)
    ensures forall k :: 16 * numBlocks <= k < dst.Length ==> dst[k] == old(dst[k])
  {
    hide InvCipher, Keys, BlockAt, Holds, Enciphered;
    var n, at := numBlocks, 0;
    ghost var from := src[..];
    while n > 0
      invariant 0 <= n <= numBlocks && at == 16 * (numBlocks - n) && at % 32 == 0
      invariant Decrypted(rounds, sk, from, dst[..], numBlocks - n)
      invariant forall k :: at <= k < src.Length ==> src[k] == from[k]
      invariant forall k :: 16 * numBlocks <= k < dst.Length ==> dst[k] == old(dst[k])
    {
      ghost var done, before := numBlocks - n, dst[..];
      var two := n > 1;
      var q, b1 := LoadPair(src, at, two);
      ghost var b0 := BlockAt(src[..], at);
      SameBlock(src[..], from, at);
      if two {
        SameBlock(src[..], from, at + 16);
      }
      BitsliceDecrypt(rounds, sk, q, b0, b1);
      StorePair(q, dst, at, two, InvCipher(Keys(sk, rounds, 0), b0), InvCipher(Keys(sk, rounds, 1), b1));
      forall i | 0 <= i < done ensures BlockAt(dst[..], 16 * i) == BlockAt(before, 16 * i) {
        SameBlock(dst[..], before, 16 * i);
      }
      if two {
        at := at + 32;
        n := n - 2;
      } else {
        break;
      }
    }
    DecryptedIs(rounds, sk, from, dst[..], numBlocks);
  }

  /** Decryption undoes encryption, for every expanded key, round count and number
      of blocks, odd ones included. */
  lemma EcbUndo(rounds: nat, sk: seq<bv32>, plain: seq<bv8>, code: seq<bv8>, out: seq<bv8>, n: nat)
    requires rounds >= 1 && 8 * rounds + 8 <= |sk|
    requires 16 * n <= |plain| && 16 * n <= |code| && 16 * n <= |out|
    requires Encrypted(rounds, sk, plain, code, n) && Decrypted(rounds, sk, code, out, n)
    ensures out[..16 * n] == plain[..16 * n]
  {
    hide Cipher, InvCipher, Keys, Bits;
    forall k | 0 <= k < 16 * n ensures out[k] == plain[k] {
      var i := k / 16;
      CipherUndo(Keys(sk, rounds, i % 2), BlockAt(plain, 16 * i));
      assert BlockAt(out, 16 * i)[k % 16] == BlockAt(plain, 16 * i)[k % 16];
      assert 16 * i + k % 16 == k;
      BitsInjective(out[k], plain[k]);
    }
  }
}
