/** Machine integers, and bytes read as little-endian words. */
module Machine {
  import opened Limbs

  type byte = x: int | 0 <= x < 256
  type u32 = x: int | 0 <= x < 0x1_0000_0000
  type u64 = x: int | 0 <= x < 0x1_0000_0000_0000_0000

  /** Four bytes, least significant first. */
  function Word4(b0: int, b1: int, b2: int, b3: int): (w: int)
  {
    b0 + 0x100 * b1 + 0x1_0000 * b2 + 0x100_0000 * b3
  }

  lemma FourMore(m: seq<byte>, i: nat)
    requires i + 4 <= |m|
    ensures Val(m[i..], 256) == Word4(m[i], m[i + 1], m[i + 2], m[i + 3]) + 0x1_0000_0000 * Val(m[i + 4..], 256)
  {
    hide Val;
    ValSuffix(m, i, 256);
    ValSuffix(m, i + 1, 256);
    ValSuffix(m, i + 2, 256);
    ValSuffix(m, i + 3, 256);
  }

  lemma SixteenBytes(m: seq<byte>)
    requires |m| == 16
    ensures Val(m, 256) == Word4(m[0], m[1], m[2], m[3]) + 0x1_0000_0000 * (
              Word4(m[4], m[5], m[6], m[7]) + 0x1_0000_0000 * (
              Word4(m[8], m[9], m[10], m[11]) + 0x1_0000_0000 * Word4(m[12], m[13], m[14], m[15])))
  {
    hide Val;
    assert m[0..] == m && m[16..] == [];
    FourMore(m, 0);
    FourMore(m, 4);
    FourMore(m, 8);
    FourMore(m, 12);
    ValEmpty(256);
  }

  lemma Pow16()
    ensures Pow(256, 16) == 0x1_0000_0000_0000_0000_0000_0000_0000_0000
  {
    assert Pow(256, 4) == 0x1_0000_0000;
    PowAdd(256, 4, 4);
    PowAdd(256, 8, 8);
  }
}
