/** crypto/aes.c: where the bitsliced state keeps each byte of its two blocks,
    and the bit permutations. */
module AesPlace {
  import opened AesBlock
  import opened AesByte
  import opened AesSlice

  /** The mask of the byte at p in block l: bit 8r + 2c + l. */
  function Place(l: nat, p: nat): (m: bv32)
    requires l < 2 && p < 16
  {
    Spot(l, p / 4, Base(p % 4))
  }

  /** The lowest bit of byte r of a word. */
  function Base(r: nat): (b: bv32)
  {
    if r == 0 then 1 else if r == 1 then 0x100 else if r == 2 then 0x1_0000 else 0x100_0000
  }

  function Spot(l: nat, c: nat, b: bv32): (m: bv32)
  {
    if l == 0 then
      if c == 0 then b else if c == 1 then b << 2 else if c == 2 then b << 4 else b << 6
    else
      if c == 0 then b << 1 else if c == 1 then b << 3 else if c == 2 then b << 5 else b << 7
  }

  lemma PlaceBelow(l: nat, p: nat)
    requires l < 2 && p < 16
    ensures OneHot(Place(l, p))
    ensures Up(Place(l, p)) == Place(l, Below(p))
  {
    hide Below, Spot, OneHot, Up;
    SpotUp(l, p / 4, p % 4);
  }

  lemma SpotUp(l: nat, c: nat, r: nat)
    requires r < 4
    ensures OneHot(Spot(l, c, Base(r)))
    ensures Up(Spot(l, c, Base(r))) == Spot(l, c, Base((r + 1) % 4))
  {
    if r == 0 {} else if r == 1 {} else if r == 2 {} else {}
  }

  /** shift_rows on one word */
  function ShiftWord(x: bv32): (r: bv32)
  {
    (x & 0x0000_00FF)
    | ((x & 0x0000_FC00) >> 2) | ((x & 0x0000_0300) << 6)
    | ((x & 0x00F0_0000) >> 4) | ((x & 0x000F_0000) << 4)
    | ((x & 0xC000_0000) >> 6) | ((x & 0x3F00_0000) << 2)
  }

  /** inv_shift_rows on one word */
  function InvShiftWord(x: bv32): (r: bv32)
  {
    (x & 0x0000_00FF)
    | ((x & 0x0000_3F00) << 2) | ((x & 0x0000_C000) >> 6)
    | ((x & 0x000F_0000) << 4) | ((x & 0x00F0_0000) >> 4)
    | ((x & 0x0300_0000) << 6) | ((x & 0xFC00_0000) >> 2)
  }

  /** A shifted word takes each bit from where the inverse shift puts it. */
  lemma ShiftMask(x: bv32, m: bv32)
    requires OneHot(m)
    ensures Bit(ShiftWord(x), m) == Bit(x, InvShiftWord(m))
  {
    if m & 0x0000_00FF != 0 {
    } else if m & 0x0000_FF00 != 0 {
      if m & 0x0000_3F00 != 0 {} else {}
    } else if m & 0x00FF_0000 != 0 {
      if m & 0x000F_0000 != 0 {} else {}
    } else {
      if m & 0x0300_0000 != 0 {} else {}
    }
  }

  lemma InvShiftMask(x: bv32, m: bv32)
    requires OneHot(m)
    ensures Bit(InvShiftWord(x), m) == Bit(x, ShiftWord(m))
  {
    if m & 0x0000_00FF != 0 {
    } else if m & 0x0000_FF00 != 0 {
      if m & 0x0000_FC00 != 0 {} else {}
    } else if m & 0x00FF_0000 != 0 {
      if m & 0x000F_0000 != 0 {} else {}
    } else {
      if m & 0xC000_0000 != 0 {} else {}
    }
  }

  lemma SpotShift(l: nat, c: nat, r: nat)
    requires r < 4 && c < 4
    ensures InvShiftWord(Spot(l, c, Base(r))) == Spot(l, (c + r) % 4, Base(r))
    ensures ShiftWord(Spot(l, c, Base(r))) == Spot(l, (c + 4 - r) % 4, Base(r))
  {
    if r == 0 {
    } else if r == 1 {
      if c == 0 {} else if c == 1 {} else if c == 2 {} else {}
    } else if r == 2 {
      if c == 0 {} else if c == 1 {} else if c == 2 {} else {}
    } else {
      if c == 0 {} else if c == 1 {} else if c == 2 {} else {}
    }
  }

  lemma PlaceShifted(l: nat, p: nat)
    requires l < 2 && p < 16
    ensures InvShiftWord(Place(l, p)) == Place(l, Shifted(p))
    ensures ShiftWord(Place(l, p)) == Place(l, Unshifted(p))
  {
    hide Shifted, Unshifted, Spot, Base, ShiftWord, InvShiftWord;
    SpotShift(l, p / 4, p % 4);
  }

  /** SWAP2, SWAP4 and SWAP8 of aes_ct_ortho: the new x and the new y. */
  function Low2(x: bv32, y: bv32): (r: bv32) { (x & 0x5555_5555) | ((y & 0x5555_5555) << 1) }
  function High2(x: bv32, y: bv32): (r: bv32) { ((x & 0xAAAA_AAAA) >> 1) | (y & 0xAAAA_AAAA) }

  function Low4(x: bv32, y: bv32): (r: bv32) { (x & 0x3333_3333) | ((y & 0x3333_3333) << 2) }
  function High4(x: bv32, y: bv32): (r: bv32) { ((x & 0xCCCC_CCCC) >> 2) | (y & 0xCCCC_CCCC) }

  function Low8(x: bv32, y: bv32): (r: bv32) { (x & 0x0F0F_0F0F) | ((y & 0x0F0F_0F0F) << 4) }
  function High8(x: bv32, y: bv32): (r: bv32) { ((x & 0xF0F0_F0F0) >> 4) | (y & 0xF0F0_F0F0) }

  function Swaps2(q: Words): (r: Words)
  {
    Words(Low2(q.w0, q.w1), High2(q.w0, q.w1), Low2(q.w2, q.w3), High2(q.w2, q.w3),
          Low2(q.w4, q.w5), High2(q.w4, q.w5), Low2(q.w6, q.w7), High2(q.w6, q.w7))
  }

  function Swaps4(q: Words): (r: Words)
  {
    Words(Low4(q.w0, q.w2), Low4(q.w1, q.w3), High4(q.w0, q.w2), High4(q.w1, q.w3),
          Low4(q.w4, q.w6), Low4(q.w5, q.w7), High4(q.w4, q.w6), High4(q.w5, q.w7))
  }

  function Swaps8(q: Words): (r: Words)
  {
    Words(Low8(q.w0, q.w4), Low8(q.w1, q.w5), Low8(q.w2, q.w6), Low8(q.w3, q.w7),
          High8(q.w0, q.w4), High8(q.w1, q.w5), High8(q.w2, q.w6), High8(q.w3, q.w7))
  }

  /** aes_ct_ortho */
  function Ortho(q: Words): (r: Words)
  {
    Swaps8(Swaps4(Swaps2(q)))
  }

  /** The lowest bit of each byte of a word. */
  ghost predicate RowBase(b: bv32) { b == 1 || b == 0x100 || b == 0x1_0000 || b == 0x100_0000 }

  /** The byte of x that starts at b. */
  ghost function ByteAt(x: bv32, b: bv32): (r: Byte)
  {
    Byte(Bit(x, b), Bit(x, b << 1), Bit(x, b << 2), Bit(x, b << 3),
         Bit(x, b << 4), Bit(x, b << 5), Bit(x, b << 6), Bit(x, b << 7))
  }

  lemma Swap2Bytes(b: bv32)
    requires RowBase(b)
    ensures forall x, y {:trigger Low2(x, y)} ::
              ByteAt(Low2(x, y), b)
              == Byte(Bit(x, b), Bit(y, b), Bit(x, b << 2), Bit(y, b << 2),
                      Bit(x, b << 4), Bit(y, b << 4), Bit(x, b << 6), Bit(y, b << 6))
    ensures forall x, y {:trigger High2(x, y)} ::
              ByteAt(High2(x, y), b)
              == Byte(Bit(x, b << 1), Bit(y, b << 1), Bit(x, b << 3), Bit(y, b << 3),
                      Bit(x, b << 5), Bit(y, b << 5), Bit(x, b << 7), Bit(y, b << 7))
  {
  }

  lemma Swap4Bytes(b: bv32)
    requires RowBase(b)
    ensures forall x, y {:trigger Low4(x, y)} ::
              ByteAt(Low4(x, y), b)
              == Byte(Bit(x, b), Bit(x, b << 1), Bit(y, b), Bit(y, b << 1),
                      Bit(x, b << 4), Bit(x, b << 5), Bit(y, b << 4), Bit(y, b << 5))
    ensures forall x, y {:trigger High4(x, y)} ::
              ByteAt(High4(x, y), b)
              == Byte(Bit(x, b << 2), Bit(x, b << 3), Bit(y, b << 2), Bit(y, b << 3),
                      Bit(x, b << 6), Bit(x, b << 7), Bit(y, b << 6), Bit(y, b << 7))
  {
  }

  lemma Swap8Bytes(b: bv32)
    requires RowBase(b)
    ensures forall x, y {:trigger Low8(x, y)} ::
              ByteAt(Low8(x, y), b)
              == Byte(Bit(x, b), Bit(x, b << 1), Bit(x, b << 2), Bit(x, b << 3),
                      Bit(y, b), Bit(y, b << 1), Bit(y, b << 2), Bit(y, b << 3))
    ensures forall x, y {:trigger High8(x, y)} ::
              ByteAt(High8(x, y), b)
              == Byte(Bit(x, b << 4), Bit(x, b << 5), Bit(x, b << 6), Bit(x, b << 7),
                      Bit(y, b << 4), Bit(y, b << 5), Bit(y, b << 6), Bit(y, b << 7))
  {
  }

  /** The bytes at b of the eight words are transposed, bits against words. */
  lemma OrthoLanes(q: Words, b: bv32)
    requires RowBase(b)
    ensures Lane(Ortho(q), b) == ByteAt(q.w0, b)
    ensures Lane(Ortho(q), b << 1) == ByteAt(q.w1, b)
    ensures Lane(Ortho(q), b << 2) == ByteAt(q.w2, b)
    ensures Lane(Ortho(q), b << 3) == ByteAt(q.w3, b)
    ensures Lane(Ortho(q), b << 4) == ByteAt(q.w4, b)
    ensures Lane(Ortho(q), b << 5) == ByteAt(q.w5, b)
    ensures Lane(Ortho(q), b << 6) == ByteAt(q.w6, b)
    ensures Lane(Ortho(q), b << 7) == ByteAt(q.w7, b)
  {
    hide Bit, RowBase, Low2, High2, Low4, High4, Low8, High8;
    Swap2Bytes(b);
    Swap4Bytes(b);
    Swap8Bytes(b);
  }

  /** And back: transposing again returns the bytes. */
  lemma OrthoBytes(q: Words, b: bv32)
    requires RowBase(b)
    ensures ByteAt(Ortho(q).w0, b) == Lane(q, b)
    ensures ByteAt(Ortho(q).w1, b) == Lane(q, b << 1)
    ensures ByteAt(Ortho(q).w2, b) == Lane(q, b << 2)
    ensures ByteAt(Ortho(q).w3, b) == Lane(q, b << 3)
    ensures ByteAt(Ortho(q).w4, b) == Lane(q, b << 4)
    ensures ByteAt(Ortho(q).w5, b) == Lane(q, b << 5)
    ensures ByteAt(Ortho(q).w6, b) == Lane(q, b << 6)
    ensures ByteAt(Ortho(q).w7, b) == Lane(q, b << 7)
  {
    hide Bit, RowBase, Ortho;
    OrthoLanes(q, b);
  }

  lemma SameByte(x: bv32, y: bv32, b: bv32)
    requires RowBase(b) && ByteAt(x, b) == ByteAt(y, b)
    ensures x & (b * 0xFF) == y & (b * 0xFF)
  {
    if b == 1 {} else if b == 0x100 {} else if b == 0x1_0000 {} else {}
  }

  lemma SameBytes(x: bv32, y: bv32)
    requires ByteAt(x, 1) == ByteAt(y, 1) && ByteAt(x, 0x100) == ByteAt(y, 0x100)
    requires ByteAt(x, 0x1_0000) == ByteAt(y, 0x1_0000) && ByteAt(x, 0x100_0000) == ByteAt(y, 0x100_0000)
    ensures x == y
  {
    hide ByteAt;
    SameByte(x, y, 1);
    SameByte(x, y, 0x100);
    SameByte(x, y, 0x1_0000);
    SameByte(x, y, 0x100_0000);
  }

  lemma OrthoTwice(q: Words, b: bv32)
    requires RowBase(b)
    ensures ByteAt(Ortho(Ortho(q)).w0, b) == ByteAt(q.w0, b)
    ensures ByteAt(Ortho(Ortho(q)).w1, b) == ByteAt(q.w1, b)
    ensures ByteAt(Ortho(Ortho(q)).w2, b) == ByteAt(q.w2, b)
    ensures ByteAt(Ortho(Ortho(q)).w3, b) == ByteAt(q.w3, b)
    ensures ByteAt(Ortho(Ortho(q)).w4, b) == ByteAt(q.w4, b)
    ensures ByteAt(Ortho(Ortho(q)).w5, b) == ByteAt(q.w5, b)
    ensures ByteAt(Ortho(Ortho(q)).w6, b) == ByteAt(q.w6, b)
    ensures ByteAt(Ortho(Ortho(q)).w7, b) == ByteAt(q.w7, b)
  {
    hide ByteAt, Lane, RowBase, Ortho;
    OrthoBytes(Ortho(q), b);
    OrthoLanes(q, b);
  }

  /** aes_ct_ortho is an involution. */
  lemma OrthoInvolution(q: Words)
    ensures Ortho(Ortho(q)) == q
  {
    hide ByteAt, Ortho;
    OrthoTwice(q, 1);
    OrthoTwice(q, 0x100);
    OrthoTwice(q, 0x1_0000);
    OrthoTwice(q, 0x100_0000);
    var t := Ortho(Ortho(q));
    SameBytes(t.w0, q.w0);
    SameBytes(t.w1, q.w1);
    SameBytes(t.w2, q.w2);
    SameBytes(t.w3, q.w3);
    SameBytes(t.w4, q.w4);
    SameBytes(t.w5, q.w5);
    SameBytes(t.w6, q.w6);
    SameBytes(t.w7, q.w7);
  }

  /** The word that holds column c of block l outside the bitsliced form. */
  function WordOf(q: Words, l: nat, c: nat): (r: bv32)
    requires l < 2 && c < 4
  {
    if l == 0 then
      if c == 0 then q.w0 else if c == 1 then q.w2 else if c == 2 then q.w4 else q.w6
    else
      if c == 0 then q.w1 else if c == 1 then q.w3 else if c == 2 then q.w5 else q.w7
  }

  lemma OrthoColumn(q: Words, l: nat, c: nat, b: bv32)
    requires l < 2 && c < 4 && RowBase(b)
    ensures Lane(Ortho(q), Spot(l, c, b)) == ByteAt(WordOf(q, l, c), b)
    ensures ByteAt(WordOf(Ortho(q), l, c), b) == Lane(q, Spot(l, c, b))
  {
    hide ByteAt, Lane, Ortho, RowBase;
    OrthoLanes(q, b);
    OrthoBytes(q, b);
    if l == 0 {
      if c == 0 {} else if c == 1 {} else if c == 2 {} else {}
    } else {
      if c == 0 {} else if c == 1 {} else if c == 2 {} else {}
    }
  }

  /** Transposing columns of bytes makes the bitsliced block, and undoes it. */
  lemma OrthoPlace(q: Words, l: nat, p: nat)
    requires l < 2 && p < 16
    ensures Lane(Ortho(q), Place(l, p)) == ByteAt(WordOf(q, l, p / 4), Base(p % 4))
    ensures ByteAt(WordOf(Ortho(q), l, p / 4), Base(p % 4)) == Lane(q, Place(l, p))
  {
    hide ByteAt, Lane, Ortho, WordOf, Spot;
    OrthoColumn(q, l, p / 4, Base(p % 4));
  }
}
