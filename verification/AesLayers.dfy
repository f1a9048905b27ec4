/** crypto/aes.c: each bitsliced layer does to both of its blocks what FIPS 197
    does to one. */
module AesLayers {
  import opened AesBlock
  import opened AesByte
  import opened AesPlace
  import opened AesSlice

  /** Block l of a bitsliced state. */
  ghost function BlockOf(q: Words, l: nat): (b: Block)
    requires l < 2
  {
    seq(16, p requires 0 <= p < 16 => Lane(q, Place(l, p)))
  }

  /** shift_rows */
  function ShiftWords(q: Words): (r: Words)
  {
    Words(ShiftWord(q.w0), ShiftWord(q.w1), ShiftWord(q.w2), ShiftWord(q.w3),
          ShiftWord(q.w4), ShiftWord(q.w5), ShiftWord(q.w6), ShiftWord(q.w7))
  }

  /** inv_shift_rows */
  function InvShiftWords(q: Words): (r: Words)
  {
    Words(InvShiftWord(q.w0), InvShiftWord(q.w1), InvShiftWord(q.w2), InvShiftWord(q.w3),
          InvShiftWord(q.w4), InvShiftWord(q.w5), InvShiftWord(q.w6), InvShiftWord(q.w7))
  }

  lemma SboxBlock(q: Words, l: nat)
    requires l < 2
    ensures BlockOf(Sbox(q), l) == SubBytes(BlockOf(q, l))
    ensures BlockOf(InvSbox(q), l) == InvSubBytes(BlockOf(q, l))
  {
    hide Lane, Place, Sbox, InvSbox, SubByte, InvSubByte, OneHot, Up, Below;
    forall p | 0 <= p < 16
      ensures BlockOf(Sbox(q), l)[p] == SubBytes(BlockOf(q, l))[p]
      ensures BlockOf(InvSbox(q), l)[p] == InvSubBytes(BlockOf(q, l))[p]
    {
      PlaceBelow(l, p);
      SboxLane(q, Place(l, p));
      InvSboxLane(q, Place(l, p));
    }
  }

  lemma ShiftLane(q: Words, m: bv32)
    requires OneHot(m)
    ensures Lane(ShiftWords(q), m) == Lane(q, InvShiftWord(m))
    ensures Lane(InvShiftWords(q), m) == Lane(q, ShiftWord(m))
  {
    hide Bit, ShiftWord, InvShiftWord, OneHot;
    forall x ensures Bit(ShiftWord(x), m) == Bit(x, InvShiftWord(m)) {
      ShiftMask(x, m);
    }
    forall x ensures Bit(InvShiftWord(x), m) == Bit(x, ShiftWord(m)) {
      InvShiftMask(x, m);
    }
  }

  lemma ShiftBlock(q: Words, l: nat)
    requires l < 2
    ensures BlockOf(ShiftWords(q), l) == ShiftRows(BlockOf(q, l))
    ensures BlockOf(InvShiftWords(q), l) == InvShiftRows(BlockOf(q, l))
  {
    hide Lane, Place, ShiftWords, InvShiftWords, ShiftWord, InvShiftWord, OneHot, Up, Below, Shifted, Unshifted;
    forall p | 0 <= p < 16
      ensures BlockOf(ShiftWords(q), l)[p] == ShiftRows(BlockOf(q, l))[p]
      ensures BlockOf(InvShiftWords(q), l)[p] == InvShiftRows(BlockOf(q, l))[p]
    {
      PlaceBelow(l, p);
      ShiftLane(q, Place(l, p));
      PlaceShifted(l, p);
    }
  }

  lemma MixBlock(q: Words, l: nat)
    requires l < 2
    ensures BlockOf(Mix(q), l) == MixColumns(BlockOf(q, l))
    ensures BlockOf(InvMix(q), l) == InvMixColumns(BlockOf(q, l))
  {
    hide Lane, Place, Mix, InvMix, MixByte, InvMixByte, OneHot, Up, Below;
    forall p | 0 <= p < 16
      ensures BlockOf(Mix(q), l)[p] == MixColumns(BlockOf(q, l))[p]
      ensures BlockOf(InvMix(q), l)[p] == InvMixColumns(BlockOf(q, l))[p]
    {
      PlaceBelow(l, p);
      PlaceBelow(l, Below(p));
      PlaceBelow(l, Below(Below(p)));
      MixLane(q, Place(l, p));
      InvMixLane(q, Place(l, p));
    }
  }

  lemma AddBlock(q: Words, k: Words, l: nat)
    requires l < 2
    ensures BlockOf(AddWords(q, k), l) == AddRoundKey(BlockOf(q, l), BlockOf(k, l))
  {
    hide Lane, Place, AddWords, Add, OneHot, Up, Below;
    forall p | 0 <= p < 16 ensures BlockOf(AddWords(q, k), l)[p] == AddRoundKey(BlockOf(q, l), BlockOf(k, l))[p] {
      PlaceBelow(l, p);
      AddLane(q, k, Place(l, p));
    }
  }
}
