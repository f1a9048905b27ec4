/** FIPS 197 byte by byte: what the cipher and the key expansion of the model come to,
    without the functions they are made of. */
module AesFips {
  import opened AesBlock
  import opened AesByte

  const TWO := Byte(0, 1, 0, 0, 0, 0, 0, 0)
  const THREE := Byte(1, 1, 0, 0, 0, 0, 0, 0)

  /** Row r of column c. */
  function At(r: nat, c: nat): (p: nat)
    requires r < 4 && c < 4
    ensures p < 16 && p % 4 == r && p / 4 == c
  {
    4 * c + r
  }

  /** The S-box value of the byte that ShiftRows brings to row r of column c. */
  function Moved(s: Block, r: nat, c: nat): (x: Byte)
    requires r < 4 && c < 4
  {
    SubByte(s[At(r, (c + r) % 4)])
  }

  /** A full round: each byte is a sum of four field multiples and the key. */
  ghost predicate FullRound(s: Block, n: Block, k: Block)
  {
    forall r, c :: 0 <= r < 4 && 0 <= c < 4 ==>
      n[At(r, c)] == Add(Add(Add(Mul(Moved(s, r, c), TWO), Mul(Moved(s, (r + 1) % 4, c), THREE)),
                             Add(Moved(s, (r + 2) % 4, c), Moved(s, (r + 3) % 4, c))), k[At(r, c)])
  }

  /** The last round, without mixing. */
  ghost predicate LastRound(s: Block, n: Block, k: Block)
  {
    forall r, c :: 0 <= r < 4 && 0 <= c < 4 ==> n[At(r, c)] == Add(Moved(s, r, c), k[At(r, c)])
  }

  /** Section 5.1: the states of a block under a list of round keys. */
  ghost predicate Enciphers(keys: seq<Block>, b: Block, trace: seq<Block>)
    requires |keys| >= 2
  {
    && |trace| == |keys|
    && (forall p :: 0 <= p < 16 ==> trace[0][p] == Add(b[p], keys[0][p]))
    && (forall u :: 1 <= u < |keys| - 1 ==> FullRound(trace[u - 1], trace[u], keys[u]))
    && LastRound(trace[|keys| - 2], trace[|keys| - 1], keys[|keys| - 1])
  }

  lemma MulTwo(x: Byte)
    ensures Mul(x, TWO) == Xtime(x)
  {
    hide Xtime;
    NoneOf(x);
    AllOf(x);
    XtimeZero();
    AddZero(ZERO);
    AddNothing(x);
    AddZero(Xtime(x));
  }

  lemma MulThree(x: Byte)
    ensures Mul(x, THREE) == Times3(x)
  {
    hide Xtime, Times3;
    NoneOf(x);
    AllOf(x);
    XtimeZero();
    AddZero(ZERO);
    AddNothing(x);
    Multiples(x);
  }

  lemma NoneOf(x: Byte)
    ensures Scale(x, 0) == ZERO
  {
  }

  lemma AllOf(x: Byte)
    ensures Scale(x, 1) == x
  {
  }

  lemma XtimeZero()
    ensures Xtime(ZERO) == ZERO
  {
  }

  lemma AddNothing(x: Byte)
    ensures Add(ZERO, x) == x
  {
  }

  lemma SamePlace(p: nat, q: nat)
    requires p % 4 == q % 4 && p / 4 == q / 4
    ensures p == q
  {
  }

  lemma BelowAt(r: nat, c: nat)
    requires r < 4 && c < 4
    ensures Below(At(r, c)) == At((r + 1) % 4, c)
    ensures Shifted(At(r, c)) == At(r, (c + r) % 4)
  {
    hide At, Below, Shifted;
    SamePlace(Below(At(r, c)), At((r + 1) % 4, c));
    SamePlace(Shifted(At(r, c)), At(r, (c + r) % 4));
  }

  lemma ShiftedSub(s: Block, r: nat, c: nat)
    requires r < 4 && c < 4
    ensures ShiftRows(SubBytes(s))[At(r, c)] == Moved(s, r, c)
  {
    hide SubByte, Shifted, At;
    BelowAt(r, c);
  }

  lemma NextRow(r: nat)
    ensures ((r + 1) % 4 + 1) % 4 == (r + 2) % 4
  {
  }

  lemma MixedAt(m: Block, r: nat, c: nat)
    requires r < 4 && c < 4
    ensures MixColumns(m)[At(r, c)]
         == Add(Add(Mul(m[At(r, c)], TWO), Mul(m[At((r + 1) % 4, c)], THREE)),
                Add(m[At((r + 2) % 4, c)], m[At((r + 3) % 4, c)]))
  {
    hide Mul, Xtime, Times3, Add, Below, At;
    PlacesBelow(r, c);
    MulTwo(m[At(r, c)]);
    MulThree(m[Below(At(r, c))]);
  }

  lemma PlacesBelow(r: nat, c: nat)
    requires r < 4 && c < 4
    ensures At((r + 1) % 4, c) == Below(At(r, c))
    ensures At((r + 2) % 4, c) == Below(Below(At(r, c)))
    ensures At((r + 3) % 4, c) == Below(Below(Below(At(r, c))))
  {
    hide Below, At;
    BelowAt(r, c);
    BelowAt((r + 1) % 4, c);
    BelowAt((r + 2) % 4, c);
    NextRow(r);
    NextRow(r + 1);
  }

  lemma FullRoundAt(s: Block, k: Block, r: nat, c: nat)
    requires r < 4 && c < 4
    ensures AddRoundKey(MixColumns(ShiftRows(SubBytes(s))), k)[At(r, c)]
         == Add(Add(Add(Mul(Moved(s, r, c), TWO), Mul(Moved(s, (r + 1) % 4, c), THREE)),
                    Add(Moved(s, (r + 2) % 4, c), Moved(s, (r + 3) % 4, c))), k[At(r, c)])
  {
    hide Moved, SubBytes, ShiftRows, MixColumns, Mul, Add, At;
    var m := ShiftRows(SubBytes(s));
    MixedAt(m, r, c);
    ShiftedSub(s, r, c);
    ShiftedSub(s, (r + 1) % 4, c);
    ShiftedSub(s, (r + 2) % 4, c);
    ShiftedSub(s, (r + 3) % 4, c);
  }

  lemma FullRoundOf(s: Block, k: Block)
    ensures FullRound(s, AddRoundKey(MixColumns(ShiftRows(SubBytes(s))), k), k)
  {
    hide Moved, SubBytes, ShiftRows, MixColumns, AddRoundKey, Mul, Add, At;
    var n := AddRoundKey(MixColumns(ShiftRows(SubBytes(s))), k);
    forall r, c | 0 <= r < 4 && 0 <= c < 4
      ensures n[At(r, c)] == Add(Add(Add(Mul(Moved(s, r, c), TWO), Mul(Moved(s, (r + 1) % 4, c), THREE)),
                                     Add(Moved(s, (r + 2) % 4, c), Moved(s, (r + 3) % 4, c))), k[At(r, c)])
    {
      FullRoundAt(s, k, r, c);
    }
  }

  lemma LastRoundOf(s: Block, k: Block)
    ensures LastRound(s, AddRoundKey(ShiftRows(SubBytes(s)), k), k)
  {
    hide Moved, SubBytes, ShiftRows, Add, At;
    forall r, c | 0 <= r < 4 && 0 <= c < 4
      ensures AddRoundKey(ShiftRows(SubBytes(s)), k)[At(r, c)] == Add(Moved(s, r, c), k[At(r, c)])
    {
      ShiftedSub(s, r, c);
    }
  }

  /** The cipher of the model is the one of section 5.1, byte by byte. */
  lemma CipherEnciphers(keys: seq<Block>, b: Block) returns (trace: seq<Block>)
    requires |keys| >= 2
    ensures Enciphers(keys, b, trace) && trace[|keys| - 1] == Cipher(keys, b)
  {
    hide FullRound, LastRound, SubBytes, ShiftRows, MixColumns;
    var last := |keys| - 1;
    trace := seq(last, u requires 0 <= u < last => Rounds(keys, b, u)) + [Cipher(keys, b)];
    forall u | 1 <= u < last ensures FullRound(trace[u - 1], trace[u], keys[u]) {
      FullRoundOf(Rounds(keys, b, u - 1), keys[u]);
    }
    LastRoundOf(Rounds(keys, b, last - 1), keys[last]);
  }

  /** c is the cipher text of b. */
  ghost predicate EnciphersTo(keys: seq<Block>, b: Block, c: Block)
    requires |keys| >= 2
  {
    exists trace :: Enciphers(keys, b, trace) && trace[|keys| - 1] == c
  }

  lemma CipherTo(keys: seq<Block>, b: Block)
    requires |keys| >= 2
    ensures EnciphersTo(keys, b, Cipher(keys, b))
  {
    hide Enciphers, Cipher;
    var trace := CipherEnciphers(keys, b);
  }

  /** z is the S-box value of x: the affine image of its inverse. */
  ghost predicate IsSub(x: Byte, z: Byte)
  {
    exists y :: Inverses(x, y) && z == Affine(y)
  }

  lemma SubIs(x: Byte)
    ensures IsSub(x, SubByte(x))
  {
    hide Inverses, Affine, SubByte;
    SubByteIsInverse(x);
  }

  /** Byte r of word i of the round keys. */
  function WordByte(keys: seq<Block>, i: nat, r: nat): (b: Byte)
    requires i < 4 * |keys| && r < 4
  {
    keys[i / 4][4 * (i % 4) + r]
  }

  /** Section 5.2, byte by byte: word i of the round keys from the words before it.  The key
      bytes are given bit by bit. */
  ghost predicate Expands(key: seq<Byte>, keys: seq<Block>, i: nat)
    requires |key| >= 4 && |key| % 4 == 0 && i < 4 * |keys|
  {
    forall r :: 0 <= r < 4 ==> ExpandsAt(key, keys, i, r)
  }

  ghost predicate ExpandsAt(key: seq<Byte>, keys: seq<Block>, i: nat, r: nat)
    requires |key| >= 4 && |key| % 4 == 0 && i < 4 * |keys| && r < 4
  {
    var nk := |key| / 4;
    if i < nk then WordByte(keys, i, r) == key[4 * i + r]
    else
      var sum := Add(WordByte(keys, i, r), WordByte(keys, i - nk, r));
      if i % nk == 0 then
        IsSub(WordByte(keys, i - 1, (r + 1) % 4), Add(sum, if r == 0 then Nth(i / nk - 1) else ZERO))
      else if nk > 6 && i % nk == 4 then IsSub(WordByte(keys, i - 1, r), sum)
      else sum == WordByte(keys, i - 1, r)
  }

  /** The powers of x in GF(2^8). */
  function Nth(k: int): (b: Byte)
  {
    if k <= 0 then ONE else Mul(Nth(k - 1), TWO)
  }
}
