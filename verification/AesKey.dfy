/** crypto/aes.c: the key schedule, in words and then bitsliced for both blocks. */
module AesKey {
  import opened Aes
  import opened AesBlock
  import opened AesByte
  import opened AesEcb
  import opened AesFips
  import opened AesLayers
  import opened AesPlace
  import opened AesSlice
  import opened Arith

  /** A word of the key schedule of FIPS 197, section 5.2. */
  datatype Column = Column(r0: Byte, r1: Byte, r2: Byte, r3: Byte)

  function AddColumn(x: Column, y: Column): (r: Column)
  {
    Column(Add(x.r0, y.r0), Add(x.r1, y.r1), Add(x.r2, y.r2), Add(x.r3, y.r3))
  }

  function SubColumn(x: Column): (r: Column)
  {
    Column(SubByte(x.r0), SubByte(x.r1), SubByte(x.r2), SubByte(x.r3))
  }

  function RotColumn(x: Column): (r: Column)
  {
    Column(x.r1, x.r2, x.r3, x.r0)
  }

  /** x to the power k. */
  function Power(k: nat): (r: Byte)
  {
    if k == 0 then ONE else Xtime(Power(k - 1))
  }

  /** How many times the schedule has wrapped around the key before word i. */
  function Wraps(i: nat, nk: nat): (k: nat)
    requires 0 < nk <= i
    ensures k == i / nk - 1
  {
    DivNonNeg(i - nk, nk);
    DivModUnique(i, nk, (i - nk) / nk + 1, (i - nk) % nk);
    i / nk - 1
  }

  /** Word i of the key expansion. */
  ghost function Schedule(key: seq<bv8>, i: nat): (r: Column)
    requires |key| >= 4
  {
    var nk := |key| / 4;
    if i < nk then Column(Bits(key[4 * i]), Bits(key[4 * i + 1]), Bits(key[4 * i + 2]), Bits(key[4 * i + 3]))
    else
      var t := Schedule(key, i - 1);
      AddColumn(Schedule(key, i - nk),
                if i % nk == 0 then AddColumn(SubColumn(RotColumn(t)), Column(Power(Wraps(i, nk)), ZERO, ZERO, ZERO))
                else if nk > 6 && i % nk == 4 then SubColumn(t)
                else t)
  }

  ghost function ByteOf(x: Column, r: nat): (b: Byte)
  {
    if r == 0 then x.r0 else if r == 1 then x.r1 else if r == 2 then x.r2 else x.r3
  }

  /** Round key u as a block. */
  ghost function RoundKey(key: seq<bv8>, u: nat): (b: Block)
    requires |key| >= 4
  {
    seq(16, p requires 0 <= p < 16 => ByteOf(Schedule(key, 4 * u + p / 4), p % 4))
  }

  ghost function KeyExpansion(key: seq<bv8>, rounds: nat): (keys: seq<Block>)
    requires |key| >= 4
    ensures |keys| == rounds + 1
  {
    seq(rounds + 1, u requires 0 <= u <= rounds => RoundKey(key, u))
  }

  ghost function ColumnOf(x: bv32): (r: Column)
  {
    Column(ByteAt(x, 1), ByteAt(x, 0x100), ByteAt(x, 0x1_0000), ByteAt(x, 0x100_0000))
  }

  /** sub_word */
  function SubWord(x: bv32): (r: bv32)
  {
    Ortho(Sbox(Ortho(Words(x, x, x, x, x, x, x, x)))).w0
  }

  lemma SubWordByte(x: bv32, b: bv32)
    requires RowBase(b)
    ensures ByteAt(SubWord(x), b) == SubByte(ByteAt(x, b))
  {
    hide ByteAt, Lane, Ortho, Sbox, SubByte;
    var q := Words(x, x, x, x, x, x, x, x);
    OrthoLanes(q, b);
    SboxLane(Ortho(q), b);
    OrthoBytes(Sbox(Ortho(q)), b);
  }

  lemma SubWordColumn(x: bv32)
    ensures ColumnOf(SubWord(x)) == SubColumn(ColumnOf(x))
  {
    hide ByteAt, SubWord, SubByte;
    SubWordByte(x, 1);
    SubWordByte(x, 0x100);
    SubWordByte(x, 0x1_0000);
    SubWordByte(x, 0x100_0000);
  }

  function RotWord(x: bv32): (r: bv32)
  {
    (x << 24) | (x >> 8)
  }

  lemma RotWordColumn(x: bv32)
    ensures ColumnOf(RotWord(x)) == RotColumn(ColumnOf(x))
  {
  }

  lemma XorByte(x: bv32, y: bv32, b: bv32)
    requires RowBase(b)
    ensures ByteAt(Xor32(x, y), b) == Add(ByteAt(x, b), ByteAt(y, b))
  {
    hide Bit, Xor, Xor32, RowBase, OneHot;
    RowMasks(b);
    XorBit(x, y, b);
    XorBit(x, y, b << 1);
    XorBit(x, y, b << 2);
    XorBit(x, y, b << 3);
    XorBit(x, y, b << 4);
    XorBit(x, y, b << 5);
    XorBit(x, y, b << 6);
    XorBit(x, y, b << 7);
  }

  lemma XorBit(x: bv32, y: bv32, m: bv32)
    requires OneHot(m)
    ensures Bit(Xor32(x, y), m) == Xor(Bit(x, m), Bit(y, m))
  {
    Gates(m);
  }

  lemma RowMasks(b: bv32)
    requires RowBase(b)
    ensures OneHot(b) && OneHot(b << 1) && OneHot(b << 2) && OneHot(b << 3)
    ensures OneHot(b << 4) && OneHot(b << 5) && OneHot(b << 6) && OneHot(b << 7)
  {
  }

  lemma XorColumn(x: bv32, y: bv32)
    ensures ColumnOf(Xor32(x, y)) == AddColumn(ColumnOf(x), ColumnOf(y))
  {
    hide ByteAt, Add, Xor32;
    XorByte(x, y, 1);
    XorByte(x, y, 0x100);
    XorByte(x, y, 0x1_0000);
    XorByte(x, y, 0x100_0000);
  }

  /** rcon */
  const RCON: seq<bv32> := [0x01, 0x02, 0x04, 0x08, 0x10, 0x20, 0x40, 0x80, 0x1B, 0x36]

  lemma Powers()
    ensures Power(0) == Byte(1, 0, 0, 0, 0, 0, 0, 0)
    ensures Power(1) == Byte(0, 1, 0, 0, 0, 0, 0, 0)
    ensures Power(2) == Byte(0, 0, 1, 0, 0, 0, 0, 0)
    ensures Power(3) == Byte(0, 0, 0, 1, 0, 0, 0, 0)
    ensures Power(4) == Byte(0, 0, 0, 0, 1, 0, 0, 0)
    ensures Power(5) == Byte(0, 0, 0, 0, 0, 1, 0, 0)
    ensures Power(6) == Byte(0, 0, 0, 0, 0, 0, 1, 0)
    ensures Power(7) == Byte(0, 0, 0, 0, 0, 0, 0, 1)
    ensures Power(8) == Byte(1, 1, 0, 1, 1, 0, 0, 0)
    ensures Power(9) == Byte(0, 1, 1, 0, 1, 1, 0, 0)
  {
    assert Power(0) == Byte(1, 0, 0, 0, 0, 0, 0, 0);
    assert Power(1) == Byte(0, 1, 0, 0, 0, 0, 0, 0);
    assert Power(2) == Byte(0, 0, 1, 0, 0, 0, 0, 0);
    assert Power(3) == Byte(0, 0, 0, 1, 0, 0, 0, 0);
    assert Power(4) == Byte(0, 0, 0, 0, 1, 0, 0, 0);
    assert Power(5) == Byte(0, 0, 0, 0, 0, 1, 0, 0);
    assert Power(6) == Byte(0, 0, 0, 0, 0, 0, 1, 0);
    assert Power(7) == Byte(0, 0, 0, 0, 0, 0, 0, 1);
    assert Power(8) == Byte(1, 1, 0, 1, 1, 0, 0, 0);
    assert Power(9) == Byte(0, 1, 1, 0, 1, 1, 0, 0);
  }

  lemma RconColumn(k: nat)
    requires k < 10
    ensures ColumnOf(RCON[k]) == Column(Power(k), ZERO, ZERO, ZERO)
  {
    hide Power;
    Powers();
    if k < 5 {
      if k == 0 {} else if k == 1 {} else if k == 2 {} else if k == 3 {} else {}
    } else {
      if k == 5 {} else if k == 6 {} else if k == 7 {} else if k == 8 {} else {}
    }
  }

  lemma ScheduleStep(key: seq<bv8>, i: nat, nk: nat)
    requires |key| == 4 * nk && nk >= 4 && i >= nk
    ensures Schedule(key, i)
         == AddColumn(Schedule(key, i - nk),
                      if i % nk == 0 then
                        AddColumn(SubColumn(RotColumn(Schedule(key, i - 1))),
                                  Column(Power(Wraps(i, nk)), ZERO, ZERO, ZERO))
                      else if nk > 6 && i % nk == 4 then SubColumn(Schedule(key, i - 1))
                      else Schedule(key, i - 1))
  {
    hide AddColumn, SubColumn, RotColumn, Power;
  }

  /** The bytes of a key, bit by bit. */
  ghost function KeyBytes(key: seq<bv8>): (s: seq<Byte>)
    ensures |s| == |key|
  {
    seq(|key|, i requires 0 <= i < |key| => Bits(key[i]))
  }

  lemma {:induction false} NthPower(k: nat)
    ensures Nth(k) == Power(k)
  {
    hide Mul, Xtime;
    if k != 0 {
      NthPower(k - 1);
      MulTwo(Power(k - 1));
    }
  }

  lemma WordOfKey(key: seq<bv8>, rounds: nat, i: nat, r: nat)
    requires |key| >= 4 && i < 4 * rounds + 4 && r < 4
    ensures WordByte(KeyExpansion(key, rounds), i, r) == ByteOf(Schedule(key, i), r)
  {
    hide Schedule, ByteOf, RoundKey;
    RoundKeyByte(key, i / 4, i % 4, r);
    assert 4 * (i / 4) + i % 4 == i;
  }

  lemma RoundKeyByte(key: seq<bv8>, u: nat, c: nat, r: nat)
    requires |key| >= 4 && c < 4 && r < 4
    ensures RoundKey(key, u)[4 * c + r] == ByteOf(Schedule(key, 4 * u + c), r)
  {
    hide Schedule, ByteOf;
    DivModUnique(4 * c + r, 4, c, r);
  }

  lemma SumBack(a: Byte, z: Byte)
    ensures Add(Add(a, z), a) == z
  {
  }

  lemma SumBackTwo(a: Byte, z: Byte, c: Byte)
    ensures Add(Add(Add(a, Add(z, c)), a), c) == z
  {
    hide Add;
    SumBack(a, Add(z, c));
    AddTwice(z, c);
  }

  lemma ByteOfParts(x: Column, y: Column, r: nat)
    requires r < 4
    ensures ByteOf(AddColumn(x, y), r) == Add(ByteOf(x, r), ByteOf(y, r))
    ensures ByteOf(SubColumn(x), r) == SubByte(ByteOf(x, r))
    ensures ByteOf(RotColumn(x), r) == ByteOf(x, (r + 1) % 4)
  {
    hide Add, SubByte;
    if r == 0 {} else if r == 1 {} else if r == 2 {} else {}
  }

  lemma WrappedWord(key: seq<bv8>, i: nat, nk: nat, r: nat)
    requires |key| == 4 * nk && nk >= 4 && i >= nk && i % nk == 0 && r < 4
    ensures IsSub(ByteOf(Schedule(key, i - 1), (r + 1) % 4),
                  Add(Add(ByteOf(Schedule(key, i), r), ByteOf(Schedule(key, i - nk), r)),
                      if r == 0 then Nth(i / nk - 1) else ZERO))
  {
    hide Schedule, ByteOf, AddColumn, SubColumn, RotColumn, Add, SubByte, IsSub, Nth, Power;
    ScheduleStep(key, i, nk);
    var t, k := Schedule(key, i - 1), Wraps(i, nk);
    var c := Column(Power(k), ZERO, ZERO, ZERO);
    var s := SubColumn(RotColumn(t));
    NthPower(k);
    ByteOfParts(Schedule(key, i - nk), AddColumn(s, c), r);
    ByteOfParts(s, c, r);
    ByteOfParts(RotColumn(t), t, r);
    ByteOfParts(t, t, r);
    RconByte(k, r);
    SubIs(ByteOf(t, (r + 1) % 4));
    SumBackTwo(ByteOf(Schedule(key, i - nk), r), SubByte(ByteOf(t, (r + 1) % 4)), ByteOf(c, r));
  }

  lemma RconByte(k: nat, r: nat)
    requires r < 4
    ensures ByteOf(Column(Power(k), ZERO, ZERO, ZERO), r) == if r == 0 then Power(k) else ZERO
  {
    hide Power;
  }

  lemma OtherWord(key: seq<bv8>, i: nat, nk: nat, r: nat)
    requires |key| == 4 * nk && nk >= 4 && i >= nk && i % nk != 0 && r < 4
    ensures var sum := Add(ByteOf(Schedule(key, i), r), ByteOf(Schedule(key, i - nk), r));
            if nk > 6 && i % nk == 4 then IsSub(ByteOf(Schedule(key, i - 1), r), sum)
            else sum == ByteOf(Schedule(key, i - 1), r)
  {
    hide Schedule, ByteOf, AddColumn, SubColumn, Add, SubByte, IsSub;
    ScheduleStep(key, i, nk);
    var a, t := Schedule(key, i - nk), Schedule(key, i - 1);
    ByteOfParts(a, SubColumn(t), r);
    ByteOfParts(a, t, r);
    ByteOfParts(t, t, r);
    SubIs(ByteOf(t, r));
    SumBack(ByteOf(a, r), SubByte(ByteOf(t, r)));
    SumBack(ByteOf(a, r), ByteOf(t, r));
  }

  lemma FirstByte(key: seq<bv8>, i: nat, r: nat)
    requires |key| % 4 == 0 && i < |key| / 4 && r < 4
    ensures ByteOf(Schedule(key, i), r) == Bits(key[4 * i + r])
  {
    hide Bits;
  }

  /** The round keys satisfy the recurrence of FIPS 197, byte by byte. */
  lemma KeyExpands(key: seq<bv8>, rounds: nat, i: nat)
    requires |key| % 4 == 0 && |key| >= 16 && i < 4 * rounds + 4
    ensures Expands(KeyBytes(key), KeyExpansion(key, rounds), i)
  {
    hide Schedule, ByteOf, Add, IsSub, Nth, WordByte, KeyExpansion, Bits;
    var nk := |key| / 4;
    forall r | 0 <= r < 4 ensures ExpandsAt(KeyBytes(key), KeyExpansion(key, rounds), i, r) {
      WordOfKey(key, rounds, i, r);
      if i < nk {
        FirstByte(key, i, r);
      } else {
        WordOfKey(key, rounds, i - nk, r);
        WordOfKey(key, rounds, i - 1, r);
        WordOfKey(key, rounds, i - 1, (r + 1) % 4);
        if i % nk == 0 { WrappedWord(key, i, nk, r); } else { OtherWord(key, i, nk, r); }
      }
    }
  }

  /** What one turn of the loop of aes_keysched_base does to tmp. */
  method NextWord(tmp: bv32, before: bv32, nk: nat, j: nat, k: nat, ghost key: seq<bv8>, ghost i: nat)
    returns (r: bv32)
    requires |key| == 4 * nk && nk >= 4 && i >= nk && j == i % nk && k == i / nk - 1
    requires j == 0 ==> k < 10
    requires ColumnOf(tmp) == Schedule(key, i - 1) && ColumnOf(before) == Schedule(key, i - nk)
    ensures ColumnOf(r) == Schedule(key, i)
  {
    hide ColumnOf, SubWord, RotWord, Xor32, Wraps, AddColumn, SubColumn, RotColumn, Schedule, Power;
    ScheduleStep(key, i, nk);
    r := tmp;
    if j == 0 {
      RotWordColumn(r);
      r := RotWord(r);
      SubWordColumn(r);
      RconColumn(k);
      XorColumn(SubWord(r), RCON[k]);
      r := Xor32(SubWord(r), RCON[k]);
    } else if nk > 6 && j == 4 {
      SubWordColumn(r);
      r := SubWord(r);
    }
    XorColumn(before, r);
    r := Xor32(before, r);
  }

  /** The rounds that aes_keysched_base gives a key length, or zero. */
  function RoundsOf(len: int): (n: nat)
  {
    if len == 16 then 10 else if len == 24 then 12 else if len == 32 then 14 else 0
  }

  /** aes_keysched_base: zero for a key length that is none of the three. */
  method KeyWords32(skey: array<bv32>, key: seq<bv8>) returns (rounds: nat)
    requires skey.Length == 60
    modifies skey
    ensures rounds == RoundsOf(|key|)
    ensures rounds != 0 ==> forall i :: 0 <= i < 4 * rounds + 4 ==> ColumnOf(skey[i]) == Schedule(key, i)
  {
    hide ColumnOf, Schedule, Word;
    rounds := RoundsOf(|key|);
    if rounds == 0 {
      return;
    }
    var nk, nkf := |key| / 4, 4 * rounds + 4;
    for i := 0 to nk
      invariant forall m :: 0 <= m < i ==> ColumnOf(skey[m]) == Schedule(key, m)
    {
      FirstWords(key, i);
      skey[i] := Word(key, 4 * i);
    }
    var tmp, j, k := skey[nk - 1], 0, 0;
    for i := nk to nkf
      invariant ColumnOf(tmp) == Schedule(key, i - 1)
      invariant j < nk && i == nk * (k + 1) + j
      invariant forall m :: 0 <= m < i ==> ColumnOf(skey[m]) == Schedule(key, m)
    {
      DivModUnique(i, nk, k + 1, j);
      tmp := NextWord(tmp, skey[i - nk], nk, j, k, key, i);
      skey[i] := tmp;
      j := j + 1;
      if j == nk {
        j := 0;
        k := k + 1;
      }
    }
  }

  lemma FirstWords(key: seq<bv8>, i: nat)
    requires 4 * i + 4 <= |key|
    ensures ColumnOf(Word(key, 4 * i)) == Schedule(key, i)
  {
    hide ByteAt, Bits, Word;
    WordBytes(key, 4 * i, 0);
    WordBytes(key, 4 * i, 1);
    WordBytes(key, 4 * i, 2);
    WordBytes(key, 4 * i, 3);
  }

  /** The even bits of a word copied to the odd places, and the odd to the even. */
  function SpreadEven(x: bv32): (r: bv32) { (x & 0x5555_5555) | ((x & 0x5555_5555) << 1) }
  function SpreadOdd(x: bv32): (r: bv32) { (x & 0xAAAA_AAAA) | ((x & 0xAAAA_AAAA) >> 1) }

  /** The even bits of x and the odd bits of y. */
  function Merge(x: bv32, y: bv32): (r: bv32) { (x & 0x5555_5555) | (y & 0xAAAA_AAAA) }

  lemma SpreadMerge(x: bv32, y: bv32)
    ensures SpreadEven(Merge(x, y)) == SpreadEven(x)
    ensures SpreadOdd(Merge(x, y)) == SpreadOdd(y)
  {
  }

  lemma SpreadBits(x: bv32, p: nat, l: nat)
    requires p < 16 && l < 2
    ensures Bit(SpreadEven(x), Place(l, p)) == Bit(x, Place(0, p))
    ensures Bit(SpreadOdd(x), Place(l, p)) == Bit(x, Place(1, p))
  {
    hide Bit, Spot, Base, SpreadEven, SpreadOdd;
    SpreadSpot(x, l, p / 4, p % 4);
  }

  lemma SpreadSpot(x: bv32, l: nat, c: nat, r: nat)
    requires l < 2 && c < 4 && r < 4
    ensures Bit(SpreadEven(x), Spot(l, c, Base(r))) == Bit(x, Spot(0, c, Base(r)))
    ensures Bit(SpreadOdd(x), Spot(l, c, Base(r))) == Bit(x, Spot(1, c, Base(r)))
  {
    if r == 0 {
      if c == 0 {} else if c == 1 {} else if c == 2 {} else {}
    } else if r == 1 {
      if c == 0 {} else if c == 1 {} else if c == 2 {} else {}
    } else if r == 2 {
      if c == 0 {} else if c == 1 {} else if c == 2 {} else {}
    } else {
      if c == 0 {} else if c == 1 {} else if c == 2 {} else {}
    }
  }

  /** What aes_ct_skey_expand leaves of a doubled, transposed round key. */
  function Expanded(q: Words): (r: Words)
  {
    Words(SpreadEven(q.w0), SpreadOdd(q.w1), SpreadEven(q.w2), SpreadOdd(q.w3),
          SpreadEven(q.w4), SpreadOdd(q.w5), SpreadEven(q.w6), SpreadOdd(q.w7))
  }

  lemma ExpandedLane(q: Words, l: nat, p: nat)
    requires l < 2 && p < 16 && Lane(q, Place(0, p)) == Lane(q, Place(1, p))
    ensures Lane(Expanded(q), Place(l, p)) == Lane(q, Place(0, p))
  {
    hide Bit, Place, SpreadEven, SpreadOdd;
    SpreadBits(q.w0, p, l);
    SpreadBits(q.w1, p, l);
    SpreadBits(q.w2, p, l);
    SpreadBits(q.w3, p, l);
    SpreadBits(q.w4, p, l);
    SpreadBits(q.w5, p, l);
    SpreadBits(q.w6, p, l);
    SpreadBits(q.w7, p, l);
  }

  /** The round key of each block is the one of the schedule. */
  lemma ExpandedKey(k: seq<bv32>, key: seq<bv8>, u: nat, l: nat)
    requires |k| == 4 && l < 2 && |key| >= 4
    requires forall c :: 0 <= c < 4 ==> ColumnOf(k[c]) == Schedule(key, 4 * u + c)
    ensures BlockOf(Expanded(Ortho(Doubled(k))), l) == RoundKey(key, u)
  {
    hide Lane, Place, Ortho, ByteAt, Expanded, Schedule;
    var w := Doubled(k);
    forall p | 0 <= p < 16 ensures BlockOf(Expanded(Ortho(w)), l)[p] == RoundKey(key, u)[p] {
      OrthoPlace(w, 0, p);
      OrthoPlace(w, 1, p);
      ExpandedLane(Ortho(w), l, p);
      assert WordOf(w, 0, p / 4) == k[p / 4] == WordOf(w, 1, p / 4);
      assert ColumnOf(k[p / 4]) == Schedule(key, 4 * u + p / 4);
    }
  }

  /** Each word of a round key in both blocks. */
  function Doubled(k: seq<bv32>): (w: Words)
    requires |k| == 4
  {
    Words(k[0], k[0], k[1], k[1], k[2], k[2], k[3], k[3])
  }

  function Compressed(q: Words): (r: seq<bv32>)
    ensures |r| == 4
  {
    [Merge(q.w0, q.w1), Merge(q.w2, q.w3), Merge(q.w4, q.w5), Merge(q.w6, q.w7)]
  }

  /** Word i of the compressed schedule. */
  function CompressedWord(skey: seq<bv32>, i: nat): (x: bv32)
    requires 4 * (i / 4) + 4 <= |skey|
  {
    Compressed(Ortho(Doubled(skey[4 * (i / 4)..4 * (i / 4) + 4])))[i % 4]
  }

  /** The loop of aes_ct_keysched: two copies of each round key, transposed, and
      half of the bits of each. */
  method Compress(comp: array<bv32>, skey: array<bv32>, rounds: nat)
    requires comp.Length == skey.Length == 60 && comp != skey && rounds <= 14
    modifies comp
    ensures forall i :: 0 <= i < 4 * rounds + 4 ==> comp[i] == CompressedWord(skey[..4 * rounds + 4], i)
  {
    hide Ortho, Compressed, Doubled;
    ghost var s := skey[..4 * rounds + 4];
    for u := 0 to rounds + 1
      invariant forall i :: 0 <= i < 4 * u ==> comp[i] == CompressedWord(s, i)
    {
      var q := Compressed(Ortho(Doubled(skey[4 * u..4 * u + 4])));
      assert skey[4 * u..4 * u + 4] == s[4 * u..4 * u + 4];
      comp[4 * u], comp[4 * u + 1], comp[4 * u + 2], comp[4 * u + 3] := q[0], q[1], q[2], q[3];
    }
  }

  /** aes_ct_skey_expand */
  method SkeyExpand(skey: array<bv32>, rounds: nat, comp: array<bv32>)
    requires skey.Length == 120 && comp.Length == 60 && skey != comp && rounds <= 14
    modifies skey
    ensures forall i :: 0 <= i < 4 * rounds + 4 ==>
              skey[2 * i] == SpreadEven(comp[i]) && skey[2 * i + 1] == SpreadOdd(comp[i])
  {
    hide SpreadEven, SpreadOdd;
    for u := 0 to 4 * rounds + 4
      invariant forall i :: 0 <= i < u ==> skey[2 * i] == SpreadEven(comp[i]) && skey[2 * i + 1] == SpreadOdd(comp[i])
    {
      skey[2 * u], skey[2 * u + 1] := SpreadEven(comp[u]), SpreadOdd(comp[u]);
    }
  }

  lemma RoundKeyWords(skey: seq<bv32>, comp: seq<bv32>, exp: seq<bv32>, u: nat)
    requires |skey| == |comp| && |exp| == 2 * |comp| && 4 * u + 4 <= |skey|
    requires forall i :: 0 <= i < |comp| && 4 * (i / 4) + 4 <= |skey| ==> comp[i] == CompressedWord(skey, i)
    requires forall i :: 0 <= i < |comp| ==> exp[2 * i] == SpreadEven(comp[i]) && exp[2 * i + 1] == SpreadOdd(comp[i])
    ensures KeyWords(exp, u) == Expanded(Ortho(Doubled(skey[4 * u..4 * u + 4])))
  {
    hide Ortho, Doubled, Merge, SpreadEven, SpreadOdd;
    var q := Ortho(Doubled(skey[4 * u..4 * u + 4]));
    SpreadMerge(q.w0, q.w1);
    SpreadMerge(q.w2, q.w3);
    SpreadMerge(q.w4, q.w5);
    SpreadMerge(q.w6, q.w7);
    assert comp[4 * u] == Merge(q.w0, q.w1);
    assert comp[4 * u + 1] == Merge(q.w2, q.w3);
    assert comp[4 * u + 2] == Merge(q.w4, q.w5);
    assert comp[4 * u + 3] == Merge(q.w6, q.w7);
  }

  /** AES_CTX */
  class Context {
    const sk: array<bv32>
    const skExp: array<bv32>
    var numRounds: nat

    ghost predicate Valid()
    {
      sk.Length == 60 && skExp.Length == 120 && sk != skExp
    }

    constructor ()
      ensures Valid() && fresh(sk) && fresh(skExp)
    {
      sk := new bv32[60];
      skExp := new bv32[120];
      numRounds := 0;
    }

    /** aes_setkey: zero and the key expansion of FIPS 197 for both blocks when the
        key has one of the three lengths, and -1 otherwise. */
    method SetKey(key: seq<bv8>) returns (r: int)
      requires Valid()
      modifies this, sk, skExp
      ensures r == if |key| in {16, 24, 32} then 0 else -1
      ensures numRounds == if r == 0 then |key| / 4 + 6 else 0
      ensures r == 0 ==> Keys(skExp[..], numRounds, 0) == KeyExpansion(key, numRounds) == Keys(skExp[..], numRounds, 1)
      ensures r == 0 ==> forall l: nat, i: nat | l < 2 && i < 4 * numRounds + 4 ::
                Expands(KeyBytes(key), Keys(skExp[..], numRounds, l), i)
      ensures r != 0 ==> skExp[..] == old(skExp[..])
    {
      hide Expands, KeyBytes;
      hide Ortho, Expanded, Doubled, BlockOf, RoundKey, ColumnOf, Schedule, CompressedWord, SpreadEven, SpreadOdd;
      var skey := new bv32[60];
      numRounds := KeyWords32(skey, key);
      Compress(sk, skey, numRounds);
      if numRounds == 0 {
        return -1;
      }
      SkeyExpand(skExp, numRounds, sk);
      ghost var n := 4 * numRounds + 4;
      forall u, l: nat | 0 <= u <= numRounds && l < 2 ensures BlockOf(KeyWords(skExp[..], u), l) == RoundKey(key, u) {
        RoundKeyWords(skey[..n], sk[..n], skExp[..2 * n], u);
        ExpandedKey(skey[..n][4 * u..4 * u + 4], key, u, l);
        assert KeyWords(skExp[..2 * n], u) == KeyWords(skExp[..], u);
      }
      forall i: nat | i < n ensures Expands(KeyBytes(key), KeyExpansion(key, numRounds), i) {
        KeyExpands(key, numRounds, i);
      }
      r := 0;
    }
  }
}
