/** The cipher and the inverse cipher of FIPS 197, sections 5.1 and 5.3, on one
    block of sixteen bytes, column by column, for any number of rounds. */
module AesBlock {
  import opened AesByte

  type Block = b: seq<Byte> | |b| == 16 witness seq(16, _ => ZERO)

  /** The byte below, in the same column. */
  function Below(p: nat): (r: nat)
    requires p < 16
    ensures r < 16 && r % 4 == (p % 4 + 1) % 4 && r / 4 == p / 4
  {
    p / 4 * 4 + (p % 4 + 1) % 4
  }

  function SubBytes(b: Block): (r: Block)
  {
    seq(16, p requires 0 <= p < 16 => SubByte(b[p]))
  }

  function InvSubBytes(b: Block): (r: Block)
  {
    seq(16, p requires 0 <= p < 16 => InvSubByte(b[p]))
  }

  /** Where ShiftRows takes the byte at p from, and InvShiftRows. */
  function Shifted(p: nat): (r: nat)
    requires p < 16
    ensures r < 16 && r % 4 == p % 4 && r / 4 == (p / 4 + p % 4) % 4
  {
    p % 4 + 4 * ((p / 4 + p % 4) % 4)
  }

  function Unshifted(p: nat): (r: nat)
    requires p < 16
    ensures r < 16 && r % 4 == p % 4 && r / 4 == (p / 4 + 4 - p % 4) % 4
  {
    p % 4 + 4 * ((p / 4 + 4 - p % 4) % 4)
  }

  function ShiftRows(b: Block): (r: Block)
  {
    seq(16, p requires 0 <= p < 16 => b[Shifted(p)])
  }

  function InvShiftRows(b: Block): (r: Block)
  {
    seq(16, p requires 0 <= p < 16 => b[Unshifted(p)])
  }

  function MixColumns(b: Block): (r: Block)
  {
    seq(16, p requires 0 <= p < 16 =>
      MixByte(b[p], b[Below(p)], b[Below(Below(p))], b[Below(Below(Below(p)))]))
  }

  function InvMixColumns(b: Block): (r: Block)
  {
    seq(16, p requires 0 <= p < 16 =>
      InvMixByte(b[p], b[Below(p)], b[Below(Below(p))], b[Below(Below(Below(p)))]))
  }

  function AddRoundKey(b: Block, k: Block): (r: Block)
  {
    seq(16, p requires 0 <= p < 16 => Add(b[p], k[p]))
  }

  /** The state after the first key and u full rounds. */
  function Rounds(keys: seq<Block>, b: Block, u: nat): (r: Block)
    requires u < |keys|
  {
    if u == 0 then AddRoundKey(b, keys[0])
    else AddRoundKey(MixColumns(ShiftRows(SubBytes(Rounds(keys, b, u - 1)))), keys[u])
  }

  /** The last round leaves the columns unmixed. */
  function Cipher(keys: seq<Block>, b: Block): (r: Block)
    requires |keys| >= 2
  {
    AddRoundKey(ShiftRows(SubBytes(Rounds(keys, b, |keys| - 2))), keys[|keys| - 1])
  }

  /** The state of the inverse cipher when the rounds from u on are undone. */
  function InvRounds(keys: seq<Block>, c: Block, u: nat): (r: Block)
    requires 1 <= u < |keys|
    decreases |keys| - u
  {
    if u == |keys| - 1 then AddRoundKey(c, keys[u])
    else InvMixColumns(AddRoundKey(InvSubBytes(InvShiftRows(InvRounds(keys, c, u + 1))), keys[u]))
  }

  function InvCipher(keys: seq<Block>, c: Block): (r: Block)
    requires |keys| >= 2
  {
    AddRoundKey(InvSubBytes(InvShiftRows(InvRounds(keys, c, 1))), keys[0])
  }

  /** Each layer is undone by its inverse. */
  lemma SubBytesUndo(b: Block)
    ensures InvSubBytes(SubBytes(b)) == b
  {
    hide SubByte, InvSubByte;
    forall p | 0 <= p < 16 ensures InvSubBytes(SubBytes(b))[p] == b[p] {
      SubUndo(b[p]);
    }
  }

  lemma ShiftRowsUndo(b: Block)
    ensures InvShiftRows(ShiftRows(b)) == b
  {
    hide Shifted, Unshifted;
    forall p | 0 <= p < 16 ensures InvShiftRows(ShiftRows(b))[p] == b[p] {
      ShiftBack(p);
    }
  }

  lemma ShiftBack(p: nat)
    requires p < 16
    ensures Shifted(Unshifted(p)) == p
  {
    hide Shifted, Unshifted;
  }

  lemma MixColumnsUndo(b: Block)
    ensures InvMixColumns(MixColumns(b)) == b
  {
    hide MixByte, InvMixByte, Below;
    forall p | 0 <= p < 16 ensures InvMixColumns(MixColumns(b))[p] == b[p] {
      var p1 := Below(p);
      var p2 := Below(p1);
      var p3 := Below(p2);
      Around(p);
      Around(p1);
      Around(p2);
      Around(p3);
      MixUndo(b[p], b[p1], b[p2], b[p3]);
    }
  }

  lemma Around(p: nat)
    requires p < 16
    ensures Below(Below(Below(Below(p)))) == p
  {
    hide Below;
  }

  lemma AddRoundKeyUndo(b: Block, k: Block)
    ensures AddRoundKey(AddRoundKey(b, k), k) == b
  {
    hide Add;
    forall p | 0 <= p < 16 ensures AddRoundKey(AddRoundKey(b, k), k)[p] == b[p] {
      AddTwice(b[p], k[p]);
    }
  }

  lemma AddTwice(x: Byte, y: Byte)
    ensures Add(Add(x, y), y) == x
  {
  }

  /** Undoing rounds meets the forward state from behind. */
  lemma {:induction false} RoundsMeet(keys: seq<Block>, b: Block, u: nat)
    requires 1 <= u < |keys|
    ensures InvRounds(keys, Cipher(keys, b), u) == ShiftRows(SubBytes(Rounds(keys, b, u - 1)))
    decreases |keys| - u
  {
    hide SubBytes, ShiftRows, MixColumns, InvSubBytes, InvShiftRows, InvMixColumns, AddRoundKey;
    if u == |keys| - 1 {
      AddRoundKeyUndo(ShiftRows(SubBytes(Rounds(keys, b, |keys| - 2))), keys[u]);
    } else {
      RoundsMeet(keys, b, u + 1);
      var s := Rounds(keys, b, u - 1);
      ShiftRowsUndo(SubBytes(Rounds(keys, b, u)));
      SubBytesUndo(Rounds(keys, b, u));
      AddRoundKeyUndo(MixColumns(ShiftRows(SubBytes(s))), keys[u]);
      MixColumnsUndo(ShiftRows(SubBytes(s)));
    }
  }

  /** The inverse cipher undoes the cipher, for every key schedule and round count. */
  lemma CipherUndo(keys: seq<Block>, b: Block)
    requires |keys| >= 2
    ensures InvCipher(keys, Cipher(keys, b)) == b
  {
    hide SubBytes, ShiftRows, InvSubBytes, InvShiftRows, AddRoundKey, InvRounds, Cipher;
    RoundsMeet(keys, b, 1);
    var s := Rounds(keys, b, 0);
    ShiftRowsUndo(SubBytes(s));
    SubBytesUndo(s);
    AddRoundKeyUndo(b, keys[0]);
  }

  lemma SubBytesRedo(b: Block)
    ensures SubBytes(InvSubBytes(b)) == b
  {
    hide SubByte, InvSubByte;
    forall p | 0 <= p < 16 ensures SubBytes(InvSubBytes(b))[p] == b[p] {
      SubRedo(b[p]);
    }
  }

  lemma ShiftRowsRedo(b: Block)
    ensures ShiftRows(InvShiftRows(b)) == b
  {
    hide Shifted, Unshifted;
    forall p | 0 <= p < 16 ensures ShiftRows(InvShiftRows(b))[p] == b[p] {
      ShiftForth(p);
    }
  }

  lemma ShiftForth(p: nat)
    requires p < 16
    ensures Unshifted(Shifted(p)) == p
  {
    hide Shifted, Unshifted;
  }

  lemma MixColumnsRedo(b: Block)
    ensures MixColumns(InvMixColumns(b)) == b
  {
    hide MixByte, InvMixByte, Below;
    forall p | 0 <= p < 16 ensures MixColumns(InvMixColumns(b))[p] == b[p] {
      var p1 := Below(p);
      var p2 := Below(p1);
      var p3 := Below(p2);
      Around(p);
      Around(p1);
      Around(p2);
      Around(p3);
      MixRedo(b[p], b[p1], b[p2], b[p3]);
    }
  }

  /** Rounds meet the state of the inverse cipher from the front. */
  lemma {:induction false} InvRoundsMeet(keys: seq<Block>, c: Block, u: nat)
    requires 1 <= u < |keys|
    ensures Rounds(keys, InvCipher(keys, c), u - 1) == InvSubBytes(InvShiftRows(InvRounds(keys, c, u)))
  {
    hide SubBytes, ShiftRows, MixColumns, InvSubBytes, InvShiftRows, InvMixColumns, AddRoundKey;
    if u == 1 {
      AddRoundKeyUndo(InvSubBytes(InvShiftRows(InvRounds(keys, c, 1))), keys[0]);
    } else {
      InvRoundsMeet(keys, c, u - 1);
      var t := InvSubBytes(InvShiftRows(InvRounds(keys, c, u)));
      SubBytesRedo(InvShiftRows(InvRounds(keys, c, u - 1)));
      ShiftRowsRedo(InvRounds(keys, c, u - 1));
      MixColumnsRedo(AddRoundKey(t, keys[u - 1]));
      AddRoundKeyUndo(t, keys[u - 1]);
    }
  }

  /** The cipher undoes the inverse cipher: both are bijections on blocks. */
  lemma CipherRedo(keys: seq<Block>, c: Block)
    requires |keys| >= 2
    ensures Cipher(keys, InvCipher(keys, c)) == c
  {
    hide SubBytes, ShiftRows, InvSubBytes, InvShiftRows, AddRoundKey, Rounds, InvCipher;
    var last := |keys| - 1;
    InvRoundsMeet(keys, c, last);
    SubBytesRedo(InvShiftRows(InvRounds(keys, c, last)));
    ShiftRowsRedo(InvRounds(keys, c, last));
    AddRoundKeyUndo(c, keys[last]);
  }
}
