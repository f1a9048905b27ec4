/** crypto/idgen.c: 32-bit ids from a counter behind a keyed permutation of the
    31-bit numbers, which is changed, with the top bit, before it is used up. */
module Idgen {
  import opened Bits
  import opened Machine

  const HALF: int := 0x8000_0000
  const WORD: int := 0x1_0000
  const REKEY_LIMIT: int := 0x6000_0000
  const REKEY_TIME: int := 600

  /** IDGEN32_ROUNDS / 2 */
  const DOUBLE_ROUNDS: nat := 15

  type Key = k: seq<byte> | |k| == 32 witness seq(32, _ => 0)

  /** idgen32_ftable: nothing here depends on its contents. */
  type Table = t: seq<byte> | |t| == 256 witness seq(256, _ => 0)
  const TABLE: Table

  type u16 = x: int | 0 <= x < 0x1_0000
  type u15 = x: int | 0 <= x < 0x8000

  function XorByte(x: byte, y: byte): (r: byte)
  {
    Pow2Literals();
    XorBound(x, y, 8);
    Xor(x, y)
  }

  function Xor16(x: u16, y: u16): (r: u16)
  {
    Pow2Literals();
    XorBound(x, y, 16);
    Xor(x, y)
  }

  function Xor15(x: u15, y: u15): (r: u15)
  {
    assert Pow2(16) == 2 * Pow2(15);
    Pow2Literals();
    XorBound(x, y, 15);
    Xor(x, y)
  }

  /** idgen32_g: one Skipjack-like round on a word. */
  function G(key: Key, k: nat, w: u16): (r: u16)
  {
    var g1 := w / 256;
    var g2 := w % 256;
    var g3 := XorByte(TABLE[XorByte(g2, key[(4 * k) % 32])], g1);
    var g4 := XorByte(TABLE[XorByte(g3, key[(4 * k + 1) % 32])], g2);
    var g5 := XorByte(TABLE[XorByte(g4, key[(4 * k + 2) % 32])], g3);
    var g6 := XorByte(TABLE[XorByte(g5, key[(4 * k + 3) % 32])], g4);
    256 * g5 + g6
  }

  /** The round as a recurrence on bytes: each new byte is the one before the last, changed
      by the table's entry for the last one and the next byte of the key. */
  ghost predicate Bytes(key: Key, k: nat, g: seq<byte>)
  {
    |g| == 6 && forall i, j, l :: 0 <= i < 4 && j == i + 1 && l == i + 2 ==>
                  g[l] == XorByte(g[i], TABLE[XorByte(g[j], key[(4 * k + i) % 32])])
  }

  lemma GBytes(key: Key, k: nat, w: u16) returns (g: seq<byte>)
    ensures Bytes(key, k, g)
    ensures g[0] as int * 256 + g[1] == w && g[4] as int * 256 + g[5] == G(key, k, w)
  {
    hide XorByte;
    var g1, g2 := w / 256, w % 256;
    var t1 := TABLE[XorByte(g2, key[(4 * k) % 32])];
    var g3 := XorByte(t1, g1);
    var t2 := TABLE[XorByte(g3, key[(4 * k + 1) % 32])];
    var g4 := XorByte(t2, g2);
    var t3 := TABLE[XorByte(g4, key[(4 * k + 2) % 32])];
    var g5 := XorByte(t3, g3);
    var t4 := TABLE[XorByte(g5, key[(4 * k + 3) % 32])];
    g := [g1, g2, g3, g4, g5, XorByte(t4, g4)];
    XorSwap(t1, g1);
    XorSwap(t2, g2);
    XorSwap(t3, g3);
    XorSwap(t4, g4);
  }

  lemma XorSwap(x: byte, y: byte)
    ensures XorByte(x, y) == XorByte(y, x)
  {
    XorComm(x, y);
  }

  /** The word that a round was given, from what it came to. */
  function Ungiven(key: Key, k: nat, v: u16): (w: u16)
  {
    var hi := v / 256;
    var lo := v % 256;
    var g4 := XorByte(lo, TABLE[XorByte(hi, key[(4 * k + 3) % 32])]);
    var g3 := XorByte(hi, TABLE[XorByte(g4, key[(4 * k + 2) % 32])]);
    var g2 := XorByte(g4, TABLE[XorByte(g3, key[(4 * k + 1) % 32])]);
    var g1 := XorByte(g3, TABLE[XorByte(g2, key[(4 * k) % 32])]);
    256 * g1 + g2
  }

  /** Whatever the key and the table, a round is a bijection of the 16-bit words. */
  lemma GUndo(key: Key, k: nat, w: u16)
    ensures Ungiven(key, k, G(key, k, w)) == w
    ensures G(key, k, Ungiven(key, k, w)) == w
  {
    hide XorByte;
    UngivenUndo(key, k, w);
    var g1, g2 := w / 256, w % 256;
    var t1 := TABLE[XorByte(g2, key[(4 * k) % 32])];
    var g3 := XorByte(t1, g1);
    var t2 := TABLE[XorByte(g3, key[(4 * k + 1) % 32])];
    var g4 := XorByte(t2, g2);
    var t3 := TABLE[XorByte(g4, key[(4 * k + 2) % 32])];
    var g5 := XorByte(t3, g3);
    var t4 := TABLE[XorByte(g5, key[(4 * k + 3) % 32])];
    XorBack(t1, g1);
    XorBack(t2, g2);
    XorBack(t3, g3);
    XorBack(t4, g4);
    var r := G(key, k, w);
    assert r / 256 == g5 && r % 256 == XorByte(t4, g4);
  }

  lemma UngivenUndo(key: Key, k: nat, v: u16)
    ensures G(key, k, Ungiven(key, k, v)) == v
  {
    hide XorByte;
    var hi, lo := v / 256, v % 256;
    var t4 := TABLE[XorByte(hi, key[(4 * k + 3) % 32])];
    var g4 := XorByte(lo, t4);
    var t3 := TABLE[XorByte(g4, key[(4 * k + 2) % 32])];
    var g3 := XorByte(hi, t3);
    var t2 := TABLE[XorByte(g3, key[(4 * k + 1) % 32])];
    var g2 := XorByte(g4, t2);
    var t1 := TABLE[XorByte(g2, key[(4 * k) % 32])];
    XorForth(g3, t1);
    XorForth(g4, t2);
    XorForth(hi, t3);
    XorForth(lo, t4);
    var w := Ungiven(key, k, v);
    assert w / 256 == XorByte(g3, t1) && w % 256 == g2;
  }

  lemma XorBack(t: byte, g: byte)
    ensures XorByte(XorByte(t, g), t) == g
  {
    XorComm(t, g);
    XorTwice(g, t);
  }

  lemma XorForth(g: byte, t: byte)
    ensures XorByte(t, XorByte(g, t)) == g
  {
    XorComm(t, XorByte(g, t));
    XorTwice(g, t);
  }

  /** What round r adds to the right half, and to the left half. */
  function Right(key: Key, r: u16, wl: u15): (x: u16)
  {
    Xor16(G(key, r, wl), r)
  }

  function Left(key: Key, r: u16, wr: u16): (x: u15)
  {
    Xor16(G(key, r, wr), r) % 0x8000
  }

  /** The two halves of a 31-bit number. */
  datatype Halves = Halves(wl: u15, wr: u16)

  /** Rounds 2i and 2i + 1. */
  function Doubled(key: Key, i: nat, h: Halves): (n: Halves)
    requires i < DOUBLE_ROUNDS
  {
    var wr := Xor16(h.wr, Right(key, 2 * i, h.wl));
    Halves(Xor15(h.wl, Left(key, 2 * i + 1, wr)), wr)
  }

  function Undoubled(key: Key, i: nat, h: Halves): (n: Halves)
    requires i < DOUBLE_ROUNDS
  {
    var wl := Xor15(h.wl, Left(key, 2 * i + 1, h.wr));
    Halves(wl, Xor16(h.wr, Right(key, 2 * i, wl)))
  }

  lemma DoubledUndo(key: Key, i: nat, h: Halves)
    requires i < DOUBLE_ROUNDS
    ensures Undoubled(key, i, Doubled(key, i, h)) == h
    ensures Doubled(key, i, Undoubled(key, i, h)) == h
  {
    hide Right, Left, Xor;
    var wr := Xor16(h.wr, Right(key, 2 * i, h.wl));
    XorTwice(h.wl, Left(key, 2 * i + 1, wr));
    XorTwice(h.wr, Right(key, 2 * i, h.wl));
    var wl := Xor15(h.wl, Left(key, 2 * i + 1, h.wr));
    XorTwice(h.wl, Left(key, 2 * i + 1, h.wr));
    XorTwice(h.wr, Right(key, 2 * i, wl));
  }

  /** The first n double rounds. */
  function Rounds(key: Key, n: nat, h: Halves): (r: Halves)
    requires n <= DOUBLE_ROUNDS
  {
    if n == 0 then h else Doubled(key, n - 1, Rounds(key, n - 1, h))
  }

  function Unrounds(key: Key, n: nat, h: Halves): (r: Halves)
    requires n <= DOUBLE_ROUNDS
  {
    if n == 0 then h else Unrounds(key, n - 1, Undoubled(key, n - 1, h))
  }

  lemma {:induction false} RoundsUndo(key: Key, n: nat, h: Halves)
    requires n <= DOUBLE_ROUNDS
    ensures Unrounds(key, n, Rounds(key, n, h)) == h
    ensures Rounds(key, n, Unrounds(key, n, h)) == h
    decreases n
  {
    hide Doubled, Undoubled;
    if n != 0 {
      RoundsUndo(key, n - 1, h);
      DoubledUndo(key, n - 1, Rounds(key, n - 1, h));
      DoubledUndo(key, n - 1, h);
      RoundsUndo(key, n - 1, Undoubled(key, n - 1, h));
    }
  }

  /** The odd round at the end. */
  function Last(key: Key, h: Halves): (r: Halves)
  {
    Halves(h.wl, Xor16(h.wr, Right(key, 2 * DOUBLE_ROUNDS, h.wl)))
  }

  lemma LastTwice(key: Key, h: Halves)
    ensures Last(key, Last(key, h)) == h
  {
    hide Right, Xor;
    XorTwice(h.wr, Right(key, 2 * DOUBLE_ROUNDS, h.wl));
  }

  function Split(x: nat): (h: Halves)
    requires x < HALF
  {
    Halves(x / WORD, x % WORD)
  }

  function Join(h: Halves): (x: nat)
    ensures x < HALF && Split(x) == h
  {
    h.wl * WORD + h.wr
  }

  function Permuted(key: Key, x: nat): (y: nat)
    requires x < HALF
    ensures y < HALF
  {
    Join(Last(key, Rounds(key, DOUBLE_ROUNDS, Split(x))))
  }

  function Unpermuted(key: Key, y: nat): (x: nat)
    requires y < HALF
    ensures x < HALF
  {
    Join(Unrounds(key, DOUBLE_ROUNDS, Last(key, Split(y))))
  }

  /** Whatever the key and the table, idgen32_permute is a bijection of the 31-bit
      numbers. */
  lemma PermutedUndo(key: Key, x: nat)
    requires x < HALF
    ensures Unpermuted(key, Permuted(key, x)) == x
    ensures Permuted(key, Unpermuted(key, x)) == x
  {
    hide Last, Rounds, Unrounds;
    RoundsUndo(key, DOUBLE_ROUNDS, Split(x));
    LastTwice(key, Rounds(key, DOUBLE_ROUNDS, Split(x)));
    LastTwice(key, Split(x));
    RoundsUndo(key, DOUBLE_ROUNDS, Last(key, Split(x)));
  }

  /** The halves of the input and of every round after it: each new half is the one before
      the last, changed by the last one and the number of the round, and only the low
      fifteen bits of every other one. */
  ghost predicate Feistel(key: Key, x: nat, y: int, z: seq<u16>)
  {
    && |z| == 33 && z[1] < 0x8000
    && x == z[1] as int * 0x1_0000 + z[0] && y == z[31] as int * 0x1_0000 + z[32]
    && forall r, s, t :: 0 <= r < 31 && s == r + 1 && t == r + 2 ==> z[t] == Xor(z[r], Added(key, r, z[s]))
  }

  ghost predicate Permutes(key: Key, x: nat, y: int)
  {
    exists z: seq<u16> :: Feistel(key, x, y, z)
  }

  function Added(key: Key, r: nat, half: u16): (x: nat)
  {
    if r % 2 == 0 then Xor(G(key, r, half), r) else Xor(G(key, r, half), r) % 0x8000
  }

  lemma {:induction false} RoundsHalves(key: Key, n: nat, h: Halves) returns (z: seq<u16>)
    requires n <= DOUBLE_ROUNDS
    ensures |z| == 2 * n + 2 && z[0] == h.wr && z[1] == h.wl
    ensures Rounds(key, n, h).wl == z[2 * n + 1] && Rounds(key, n, h).wr == z[2 * n]
    ensures forall r, s, t :: 0 <= r < 2 * n && s == r + 1 && t == r + 2 ==> z[t] == Xor(z[r], Added(key, r, z[s]))
    decreases n
  {
    hide Added, Right, Left, Xor;
    if n == 0 {
      z := [h.wr, h.wl];
    } else {
      var before := RoundsHalves(key, n - 1, h);
      var m := Rounds(key, n - 1, h);
      var d := Doubled(key, n - 1, m);
      AddedHalves(key, n - 1, m.wl, d.wr);
      z := before + [d.wr, d.wl];
    }
  }

  lemma AddedHalves(key: Key, i: nat, wl: u15, wr: u16)
    requires i <= DOUBLE_ROUNDS
    ensures Added(key, 2 * i, wl) == Right(key, 2 * i, wl)
    ensures Added(key, 2 * i + 1, wr) == Left(key, 2 * i + 1, wr)
  {
    hide G, Xor;
  }

  /** The permutation is thirty-one rounds. */
  lemma PermutedRounds(key: Key, x: nat) returns (z: seq<u16>)
    requires x < 0x8000_0000
    ensures Feistel(key, x, Permuted(key, x), z)
  {
    hide Rounds, Added, Right, Xor;
    z := RoundsHalves(key, 15, Split(x));
    var h := Rounds(key, 15, Split(x));
    AddedHalves(key, 15, h.wl, 0);
    z := z + [Last(key, h).wr];
  }

  /** idgen32_permute */
  method Permute(key: Key, input: u32) returns (y: u32)
    requires input < HALF
    ensures y == Permuted(key, input)
    ensures Permutes(key, input, y)
  {
    hide Doubled, Right, Left, Feistel;
    ghost var z := PermutedRounds(key, input);
    var wl: u15 := input / WORD;
    var wr: u16 := input % WORD;
    var i, r := 0, 0;
    while i < DOUBLE_ROUNDS
      invariant 0 <= i <= DOUBLE_ROUNDS && r == 2 * i
      invariant Halves(wl, wr) == Rounds(key, i, Split(input))
    {
      ghost var h := Halves(wl, wr);
      wr := Xor16(wr, Right(key, r, wl));
      r := r + 1;
      wl := Xor15(wl, Left(key, r, wr));
      r := r + 1;
      DoubledHalves(key, i, h, wl, wr);
      i := i + 1;
    }
    wr := Xor16(wr, Right(key, r, wl));
    y := Join(Halves(wl, wr));
  }

  lemma DoubledHalves(key: Key, i: nat, h: Halves, wl: u15, wr: u16)
    requires i < DOUBLE_ROUNDS
    requires wr == Xor16(h.wr, Right(key, 2 * i, h.wl))
    requires wl == Xor15(h.wl, Left(key, 2 * i + 1, wr))
    ensures Halves(wl, wr) == Doubled(key, i, h)
  {
  }

  /** What is fixed between two calls of idgen32_rekey, and how many times the
      counter was used since the first. */
  datatype Epoch = Epoch(high: bool, offset: u32, key: Key, counter: nat)

  /** The id that the counter's value c gives. */
  function Id(e: Epoch, c: nat): (id: u32)
  {
    (if e.high then HALF else 0) + Permuted(e.key, (e.offset + c) % HALF)
  }

  /** The ids handed out in an epoch, in order: zero is passed over. */
  ghost function Ids(e: Epoch, n: nat): (s: seq<u32>)
  {
    if n == 0 then []
    else Ids(e, n - 1) + if Id(e, n - 1) == 0 then [] else [Id(e, n - 1)]
  }

  ghost function Issued(e: Epoch): (s: seq<u32>)
  {
    Ids(e, e.counter)
  }

  /** Two values of the counter less than 2^31 apart never give the same id. */
  lemma IdsApart(e: Epoch, c: nat, d: nat)
    requires c < d < c + HALF
    ensures Id(e, c) != Id(e, d)
  {
    hide Permuted, Unpermuted;
    PermutedUndo(e.key, (e.offset + c) % HALF);
    PermutedUndo(e.key, (e.offset + d) % HALF);
  }

  lemma {:induction false} IdsFrom(e: Epoch, n: nat, id: u32)
    ensures id in Ids(e, n) <==> id != 0 && exists c: nat :: c < n && id == Id(e, c)
  {
    hide Id;
    if n != 0 { IdsFrom(e, n - 1, id); }
  }

  lemma {:induction false} IdsDistinct(e: Epoch, n: nat, i: nat, j: nat)
    requires n <= HALF && i < j < |Ids(e, n)|
    ensures Ids(e, n)[i] != Ids(e, n)[j]
  {
    hide Id;
    if j < |Ids(e, n - 1)| {
      IdsDistinct(e, n - 1, i, j);
    } else {
      IdsFrom(e, n - 1, Ids(e, n - 1)[i]);
      var c: nat :| c < n - 1 && Ids(e, n - 1)[i] == Id(e, c);
      IdsApart(e, c, n - 1);
    }
  }

  /** Every epoch stops before its permutation repeats, and the next takes the other
      top bit. */
  ghost predicate History(epochs: seq<Epoch>)
  {
    && (forall k :: 0 <= k < |epochs| ==> epochs[k].counter <= REKEY_LIMIT + 1)
    && (forall k :: 0 < k < |epochs| ==> epochs[k].high != epochs[k - 1].high)
  }

  /** No id is zero, no epoch repeats one of its own ids, and none uses an id of the
      epoch before it. */
  lemma NoRepeat(epochs: seq<Epoch>, k: nat)
    requires History(epochs) && k < |epochs|
    ensures 0 !in Issued(epochs[k])
    ensures forall i, j :: 0 <= i < j < |Issued(epochs[k])| ==> Issued(epochs[k])[i] != Issued(epochs[k])[j]
    ensures k > 0 ==> forall id :: id in Issued(epochs[k]) ==> id !in Issued(epochs[k - 1])
  {
    hide Ids, Id;
    var e := epochs[k];
    IdsFrom(e, e.counter, 0);
    forall i, j | 0 <= i < j < |Issued(e)| ensures Issued(e)[i] != Issued(e)[j] {
      IdsDistinct(e, e.counter, i, j);
    }
    if k > 0 {
      forall id | id in Issued(e) ensures id !in Issued(epochs[k - 1]) {
        Disjoint(e, epochs[k - 1], id);
      }
    }
  }

  lemma Disjoint(e: Epoch, f: Epoch, id: u32)
    requires e.high != f.high
    ensures !(id in Issued(e) && id in Issued(f))
  {
    hide Permuted;
    IdsFrom(e, e.counter, id);
    IdsFrom(f, f.counter, id);
  }

  /** What the clock and arc4random answer during one turn of the loop: the clock when
      the age of the key is checked, and, for a new key, the draws and the clock. */
  datatype Answers = Answers(now: int, offset: u32, key: Key, later: int)

  /** All epochs so far, the last one still open, and when it is to be closed. */
  datatype Record = Record(epochs: seq<Epoch>, rekeyTime: int)

  ghost predicate Kept(r: Record)
  {
    |r.epochs| > 0 && History(r.epochs)
  }

  function Open(r: Record): (e: Epoch)
    requires |r.epochs| > 0
  {
    r.epochs[|r.epochs| - 1]
  }

  predicate Due(r: Record, now: int)
    requires |r.epochs| > 0
  {
    Open(r).counter > REKEY_LIMIT || r.rekeyTime < now
  }

  function Rekeyed(r: Record, a: Answers): (n: Record)
    requires |r.epochs| > 0
    ensures |n.epochs| > 0
  {
    Record(r.epochs + [Epoch(!Open(r).high, a.offset, a.key, 0)], a.later + REKEY_TIME)
  }

  function Counted(r: Record): (n: Record)
    requires |r.epochs| > 0
    ensures |n.epochs| > 0
  {
    r.(epochs := r.epochs[|r.epochs| - 1 := Open(r).(counter := Open(r).counter + 1)])
  }

  /** One turn of the loop in idgen32, and the id it comes up with. */
  function Turn(r: Record, a: Answers): (n: Record)
    requires |r.epochs| > 0
    ensures |n.epochs| > 0
  {
    Counted(if Due(r, a.now) then Rekeyed(r, a) else r)
  }

  function Drawn(r: Record, a: Answers): (id: u32)
    requires |r.epochs| > 0
  {
    Id(Open(Turn(r, a)), Open(Turn(r, a)).counter - 1)
  }

  lemma TurnKept(r: Record, a: Answers)
    requires Kept(r)
    ensures Kept(Turn(r, a)) && Open(Turn(r, a)).counter > 0
  {
    hide Ids, Id;
  }

  /** A turn that draws zero is followed by one that does not. */
  lemma ZeroOnce(r: Record, a: Answers, b: Answers)
    requires Kept(r) && Drawn(r, a) == 0
    ensures Drawn(Turn(r, a), b) != 0
  {
    hide Permuted;
    TurnKept(r, a);
    var e := Open(Turn(r, a));
    if !Due(Turn(r, a), b.now) { IdsApart(e, e.counter - 1, e.counter); }
  }

  /** All ids handed out, in order. */
  ghost function All(epochs: seq<Epoch>): (s: seq<u32>)
  {
    if epochs == [] then [] else All(epochs[..|epochs| - 1]) + Issued(epochs[|epochs| - 1])
  }

  lemma AllTurn(r: Record, a: Answers)
    requires |r.epochs| > 0
    ensures All(Turn(r, a).epochs)
         == All(r.epochs) + if Drawn(r, a) == 0 then [] else [Drawn(r, a)]
  {
    hide Id;
    var m := if Due(r, a.now) then Rekeyed(r, a) else r;
    var n := Turn(r, a);
    assert n.epochs[..|n.epochs| - 1] == m.epochs[..|m.epochs| - 1];
    assert Issued(Open(n)) == Issued(Open(m)) + if Drawn(r, a) == 0 then [] else [Drawn(r, a)] by {
      CountedSame(Open(m), Open(n), Open(m).counter);
    }
    assert All(m.epochs) == All(r.epochs) by {
      if Due(r, a.now) { assert m.epochs[..|m.epochs| - 1] == r.epochs; }
    }
  }

  lemma {:induction false} CountedSame(e: Epoch, f: Epoch, n: nat)
    requires e.high == f.high && e.offset == f.offset && e.key == f.key
    ensures Ids(e, n) == Ids(f, n)
    ensures Id(e, n) == Id(f, n)
  {
    hide Permuted;
    if n != 0 { CountedSame(e, f, n - 1); }
  }

  class Context {
    var counter: u32
    var offset: u32
    var high: bool
    var key: Key
    var rekeyTime: int
    ghost var past: seq<Epoch>

    ghost function State(): (r: Record)
      reads this
      ensures |r.epochs| > 0
    {
      Record(past + [Epoch(high, offset, key, counter)], rekeyTime)
    }

    ghost predicate Valid()
      reads this
    {
      Kept(State())
    }

    /** idgen32_init: the first top bit is drawn, then turned over. */
    constructor (draw: bool, a: Answers)
      ensures Valid() && State() == Record([Epoch(!draw, a.offset, a.key, 0)], a.later + REKEY_TIME)
    {
      counter, high, offset, key := 0, !draw, a.offset, a.key;
      rekeyTime := a.later + REKEY_TIME;
      past := [];
    }

    /** idgen32_rekey */
    method Rekey(a: Answers)
      requires Valid()
      modifies this
      ensures Valid() && State() == Rekeyed(old(State()), a)
    {
      past := past + [Epoch(high, offset, key, counter)];
      counter, high, offset, key := 0, !high, a.offset, a.key;
      rekeyTime := a.later + REKEY_TIME;
    }

    /** One turn of the loop. */
    method Draw(a: Answers) returns (id: u32)
      requires Valid()
      modifies this
      ensures Valid() && State() == Turn(old(State()), a)
      ensures id == Drawn(old(State()), a)
      ensures 0 < counter
      ensures if old(counter) > 0x6000_0000 || old(rekeyTime) < a.now
              then counter == 1 && high != old(high) && offset == a.offset && key == a.key && rekeyTime == a.later + 600
              else counter == old(counter) + 1 && unchanged(`high, `offset, `key, `rekeyTime)
      ensures Permutes(key, (offset + counter - 1) % 0x8000_0000, id - if high then 0x8000_0000 else 0)
    {
      hide Permuted, Permutes;
      TurnKept(State(), a);
      if counter > REKEY_LIMIT || rekeyTime < a.now { Rekey(a); }
      ghost var before := State();
      var p := Permute(key, (offset + counter) % HALF);
      id := (if high then HALF else 0) + p;
      counter := counter + 1;
      assert State().epochs == Counted(before).epochs;
    }

    /** idgen32: the loop turns once, or twice when the first turn draws zero. */
    method Next(answers: nat -> Answers) returns (id: u32, turns: nat)
      requires Valid()
      modifies this
      ensures Valid()
      ensures turns == if Drawn(old(State()), answers(0)) == 0 then 2 else 1
      ensures State() == if turns == 1 then Turn(old(State()), answers(0))
                         else Turn(Turn(old(State()), answers(0)), answers(1))
      ensures id != 0 && 0 < counter
      ensures Permutes(key, (offset + counter - 1) % 0x8000_0000, id - if high then 0x8000_0000 else 0)
      ensures All(State().epochs) == old(All(State().epochs)) + [id]
    {
      hide Turn, Drawn, Kept, All, Permutes;
      ghost var first := State();
      turns, id := 0, 0;
      while id == 0
        invariant Valid() && turns <= 2
        invariant turns == 0 ==> State() == first && id == 0
        invariant turns > 0 ==> 0 < counter
        invariant turns > 0 ==>
            Permutes(key, (offset + counter - 1) % 0x8000_0000, id - if high then 0x8000_0000 else 0)
        invariant turns == 1 ==> State() == Turn(first, answers(0)) && id == Drawn(first, answers(0))
        invariant turns == 2 ==>
            State() == Turn(Turn(first, answers(0)), answers(1)) && id != 0 && Drawn(first, answers(0)) == 0
        invariant All(State().epochs) == All(first.epochs) + if id == 0 then [] else [id]
        decreases 2 - turns
      {
        AllTurn(State(), answers(turns));
        if turns == 1 { ZeroOnce(first, answers(0), answers(1)); }
        id := Draw(answers(turns));
        turns := turns + 1;
      }
    }
  }
}
