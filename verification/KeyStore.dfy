/** crypto/cryptosoft.c: the software key manager as two maps, the keys in slots
    and the keys in flash, with the choice of what leaves a slot left open. */
module KeyStore {
  import opened Machine
  import opened Wrappers

  /** What a map holds under an id. */
  ghost function Get<T>(m: map<u32, T>, id: u32): (e: Option<T>)
  {
    if id in m then Some(m[id]) else None
  }

  lemma SameMaps<T>(m: map<u32, T>, n: map<u32, T>)
    requires forall id: u32 :: Get(m, id) == Get(n, id)
    ensures m == n
  {
    assert forall id: u32 :: Get(m, id).Some? <==> id in m;
    assert forall id: u32 :: Get(n, id).Some? <==> id in n;
  }

  /** Key data and flags. */
  datatype Entry = Entry(data: seq<byte>, flags: bv32)

  /** BUFSIZE of the configuration, 64 by default. */
  const BUFSIZE: nat

  /** CRYPTO_F_NOT_EXPORTABLE */
  const LOCKED: bv32 := 0x80

  const EINVAL: int := -22
  const ENOENT: int := -2
  const EACCES: int := -13
  const ENOBUFS: int := -105
  const EFBIG: int := -27
  const EEXIST: int := -17
  const ENOMEM: int := -12

  /** "SWKEYMGMT" and its terminator: the placeholder of an id that is taken but
      has no key yet. */
  const MAGIC: seq<byte> := [83, 87, 75, 69, 89, 77, 71, 77, 84, 0]

  const PLACEHOLDER := Entry(MAGIC, 0)

  predicate Locked(e: Entry) { e.flags & LOCKED != 0 }

  datatype Store = Store(cached: map<u32, Entry>, stored: map<u32, Entry>)

  /** The key under an id: the slot if there is one. */
  function Live(a: Store, id: u32): (e: Option<Entry>)
  {
    if id in a.cached then Some(a.cached[id]) else if id in a.stored then Some(a.stored[id]) else None
  }

  /** The operations of swkey_kprocess.  The random bytes and the outcome of key
      generation come with the request. */
  datatype Request =
    | AllocKey(nkeys: u32)
    | ReserveKey(id: u32)
    | ImportKey(id: u32, data: seq<byte>, flags: bv32)
    | DeleteKey(id: u32)
    | ExportKey(id: u32, buflen: nat)
    | GenerateKey(id: u32, random: seq<byte>)
    | GeneratePair(id: u32, pub: u32, made: bool, priv: seq<byte>, point: seq<byte>)
    | SaveKey(id: u32)
    | LoadKey(id: u32)
    | UnloadKey(id: u32)

  /** The first id from i to n that flash does not hold, or zero. */
  function FirstFree(stored: map<u32, Entry>, i: nat, n: u32): (id: u32)
    requires i >= 1
    ensures id != 0 ==> i <= id <= n && id !in stored
    ensures forall k: u32 :: i <= k <= n && (id == 0 || k < id) ==> k in stored
    decreases n + 1 - i
  {
    if i > n then 0 else if i in stored then FirstFree(stored, i + 1, n) else i
  }

  /** What each operation answers. */
  function Answer(a: Store, r: Request): (ret: int)
  {
    match r
    case AllocKey(n) => if FirstFree(a.stored, 1, n) != 0 then 0 else ENOMEM
    case ReserveKey(id) => if id == 0 then EINVAL else if id in a.stored then EEXIST else 0
    case ImportKey(id, _, _) => if id == 0 then EINVAL else 0
    case DeleteKey(id) => if id == 0 then EINVAL else if id in a.stored then 0 else ENOENT
    case ExportKey(id, buflen) => ExportAnswer(a, id, buflen)
    case GenerateKey(id, random) => if |random| !in {16, 24, 32} || id == 0 then EINVAL else 0
    case GeneratePair(id, pub, made, _, _) => if id == 0 || pub == 0 || !made then EINVAL else 0
    case SaveKey(id) => if id in a.cached && a.cached[id].data != [] && id != 0 then 0 else EINVAL
    case UnloadKey(id) => if id in a.cached && a.cached[id].data != [] && id != 0 then 0 else EINVAL
    case LoadKey(id) =>
      if id == 0 then EINVAL
      else if id !in a.stored then ENOENT
      else if |a.stored[id].data| > BUFSIZE then EFBIG
      else 0
  }

  /** A key in flash that reads like the placeholder counts as absent. */
  function ExportAnswer(a: Store, id: u32, buflen: nat): (ret: int)
  {
    if id == 0 then EINVAL
    else
      match Live(a, id)
      case None => ENOENT
      case Some(e) =>
        if Locked(e) then EACCES
        else if |e.data| > buflen then ENOBUFS
        else if id !in a.cached && e.data <= MAGIC then ENOENT
        else |e.data|
  }

  /** The bytes that export delivers. */
  function Exported(a: Store, r: Request): (buf: seq<byte>)
  {
    if r.ExportKey? && Answer(a, r) >= 0 && Live(a, r.id).Some? then Live(a, r.id).value.data else []
  }

  /** The key v, or none if v is zero, is copied to flash; flash refuses no bytes. */
  function WriteBack(a: Store, v: u32): (b: Store)
  {
    if v in a.cached && a.cached[v].data != [] then a.(stored := a.stored[v := a.cached[v]]) else a
  }

  /** A slot for id, once v has left it. */
  function Install(a: Store, v: u32, id: u32, e: Entry): (b: Store)
  {
    Store((a.cached - {v})[id := e], WriteBack(a, v).stored)
  }

  /** The flags of a slot before a key moves in. */
  function SlotFlags(a: Store, v: u32, id: u32): (f: bv32)
  {
    if id in a.cached then a.cached[id].flags else if v in a.cached then a.cached[v].flags else 0
  }

  /** Import sets or clears one flag and leaves the others as it finds them. */
  function ImportFlags(kept: bv32, flags: bv32): (f: bv32)
    ensures f & LOCKED == flags & LOCKED
  {
    if flags & LOCKED != 0 then WithLock(kept) else WithoutLock(kept)
  }

  function WithLock(f: bv32): (b: bv32) { f | LOCKED }
  function WithoutLock(f: bv32): (b: bv32) { f & !LOCKED }

  /** What each operation does when the slot that it takes held v. */
  function Effect(a: Store, r: Request, v: u32, w: u32): (b: Store)
  {
    match r
    case AllocKey(n) =>
      var i := FirstFree(a.stored, 1, n);
      if i != 0 then a.(stored := a.stored[i := PLACEHOLDER]) else a
    case ReserveKey(id) => if Answer(a, r) == 0 then a.(stored := a.stored[id := PLACEHOLDER]) else a
    case ImportKey(id, data, flags) =>
      if id == 0 then a
      else if |data| > BUFSIZE then a.(stored := a.stored[id := Entry(data, flags)])
      else Install(a, v, id, Entry(data, ImportFlags(SlotFlags(a, v, id), flags)))
    case DeleteKey(id) =>
      if id == 0 then a else Store(a.cached - {id}, WriteBack(a, v).stored - {id})
    case ExportKey(id, _) =>
      if id == 0 then a
      else if id !in a.cached && id in a.stored && 0 <= Answer(a, r) < BUFSIZE then Install(a, v, id, a.stored[id])
      else WriteBack(a, v)
    case GenerateKey(id, random) =>
      if Answer(a, r) != 0 then a else Generated(a, v, id, Entry(random, 0))
    case GeneratePair(id, pub, _, priv, point) =>
      if Answer(a, r) != 0 then a
      else
        var b := a.(stored := a.stored[id := Entry(priv, LOCKED)][pub := Entry(point, 0)]);
        Cover(Cover(b, v, id, Entry(priv, LOCKED)), w, pub, Entry(point, 0))
    case SaveKey(id) =>
      if id == 0 then a else if Answer(a, r) == 0 then WriteBack(a, id) else WriteBack(a, v)
    case UnloadKey(id) =>
      if id == 0 then a
      else if Answer(a, r) == 0 then WriteBack(a, id).(cached := a.cached - {id}) else WriteBack(a, v)
    case LoadKey(id) => if Answer(a, r) == 0 then Install(a, v, id, a.stored[id]) else a
  }

  function Cover(a: Store, v: u32, id: u32, e: Entry): (b: Store)
  {
    if |e.data| <= BUFSIZE then Install(a, v, id, e) else a
  }

  /** A fresh key goes to flash, and to a slot if it fits. */
  function Generated(a: Store, v: u32, id: u32, e: Entry): (b: Store)
  {
    Cover(a.(stored := a.stored[id := e]), v, id, e)
  }

  /** Zero is no id, flash holds no empty key and no slot a key too long for it. */
  ghost predicate Valid(a: Store)
  {
    && 0 !in a.cached && 0 !in a.stored
    && (forall id: u32 :: id in a.stored ==> a.stored[id].data != [])
    && (forall id: u32 :: id in a.cached ==> |a.cached[id].data| <= BUFSIZE)
  }

  /** What ecc_make_key_uncomp delivers for the curve secp256r1. */
  predicate WellFormed(r: Request)
  {
    r.GeneratePair? ==> |r.priv| == 32 && |r.point| == 64
  }

  /** A slot is taken from another key only for an id that has none. */
  ghost predicate MayLeave(a: Store, id: u32, v: u32)
  {
    v == 0 || (v in a.cached && id !in a.cached)
  }

  /** The store between the two halves of a pair. */
  function HalfPair(a: Store, r: Request, v: u32): (b: Store)
    requires r.GeneratePair?
  {
    Cover(a.(stored := a.stored[r.id := Entry(r.priv, LOCKED)][r.pub := Entry(r.point, 0)]),
          v, r.id, Entry(r.priv, LOCKED))
  }

  ghost predicate Legal(a: Store, r: Request, v: u32, w: u32)
  {
    && WellFormed(r)
    && (if r.AllocKey? then v == 0 else MayLeave(a, r.id, v))
    && (if r.GeneratePair? then MayLeave(HalfPair(a, r, v), r.pub, w) else w == 0)
  }

  /** Whether the operation puts its id into a slot. */
  ghost predicate Fills(a: Store, r: Request)
  {
    match r
    case ImportKey(id, data, _) => id != 0 && |data| <= BUFSIZE
    case ExportKey(id, _) => id != 0 && id !in a.cached && id in a.stored && 0 <= Answer(a, r) < BUFSIZE
    case GenerateKey(_, random) => Answer(a, r) == 0 && |random| <= BUFSIZE
    case GeneratePair(_, _, _, _, _) => Answer(a, r) == 0 && 32 <= BUFSIZE
    case LoadKey(_) => Answer(a, r) == 0
    case _ => false
  }

  ghost predicate FillsTwice(a: Store, r: Request)
  {
    r.GeneratePair? && Answer(a, r) == 0 && 64 <= BUFSIZE
  }

  /** The ids that an operation is about. */
  ghost predicate About(a: Store, r: Request, k: u32)
  {
    if r.AllocKey? then k == FirstFree(a.stored, 1, r.nkeys)
    else k == r.id || (r.GeneratePair? && k == r.pub)
  }

  /** An empty key that leaves its slot is gone, as flash refuses it. */
  ghost predicate Drops(a: Store, r: Request, v: u32, w: u32, k: u32)
  {
    k in a.cached && a.cached[k].data == [] && ((Fills(a, r) && k == v) || (FillsTwice(a, r) && k == w))
  }

  lemma InstallLive(a: Store, v: u32, id: u32, e: Entry, k: u32)
    requires 0 !in a.cached && k != 0 && MayLeave(a, id, v)
    ensures Live(Install(a, v, id, e), k)
         == if k == id then Some(e)
            else if k == v && a.cached[v].data == [] then if k in a.stored then Some(a.stored[k]) else None
            else Live(a, k)
  {
  }

  lemma PairOthers(a: Store, r: Request, v: u32, w: u32, k: u32)
    requires Valid(a) && Legal(a, r, v, w) && k != 0 && !About(a, r, k) && r.GeneratePair? && Answer(a, r) == 0
    ensures Live(Effect(a, r, v, w), k) == Live(a, k) <==> !Drops(a, r, v, w, k)
  {
    var b := a.(stored := a.stored[r.id := Entry(r.priv, LOCKED)][r.pub := Entry(r.point, 0)]);
    InstallLive(b, v, r.id, Entry(r.priv, LOCKED), k);
    InstallLive(HalfPair(a, r, v), w, r.pub, Entry(r.point, 0), k);
  }

  /** An operation on one key leaves every other key alone, even when it takes its
      slot, exactly as long as it does not drop an empty one. */
  lemma OthersKept(a: Store, r: Request, v: u32, w: u32, k: u32)
    requires Valid(a) && Legal(a, r, v, w) && k != 0 && !About(a, r, k)
    ensures Live(Effect(a, r, v, w), k) == Live(a, k) <==> !Drops(a, r, v, w, k)
  {
    if r.GeneratePair? && Answer(a, r) == 0 {
      PairOthers(a, r, v, w, k);
    }
  }

  /** An import that takes the slot of an empty key drops that key. */
  lemma EmptyKeyDropped(a: Store, id: u32, v: u32, other: u32, data: seq<byte>, flags: bv32)
    requires Valid(a) && id != 0 && id !in a.stored && MayLeave(a, id, v)
    requires other !in a.cached && other !in {0, id} && |data| <= BUFSIZE
    ensures var b := Effect(a, ImportKey(id, [], flags), v, 0);
            var r := ImportKey(other, data, flags);
            Live(b, id).Some? && Legal(b, r, id, 0) && Live(Effect(b, r, id, 0), id) == None
  {
  }

  /** Every operation keeps the store valid. */
  lemma EffectValid(a: Store, r: Request, v: u32, w: u32)
    requires Valid(a) && Legal(a, r, v, w)
    ensures Valid(Effect(a, r, v, w))
  {
    assert MAGIC[0] == 83;
    if r.GeneratePair? && Answer(a, r) == 0 {
      var b := a.(stored := a.stored[r.id := Entry(r.priv, LOCKED)][r.pub := Entry(r.point, 0)]);
      CoverValid(b, v, r.id, Entry(r.priv, LOCKED));
      CoverValid(HalfPair(a, r, v), w, r.pub, Entry(r.point, 0));
    }
  }

  lemma CoverValid(a: Store, v: u32, id: u32, e: Entry)
    requires Valid(a) && id != 0
    ensures Valid(Cover(a, v, id, e))
  {
  }

  /** Export, save and unload keep the key they are about. */
  lemma OwnKept(a: Store, r: Request, v: u32, w: u32)
    requires Valid(a) && Legal(a, r, v, w) && (r.ExportKey? || r.SaveKey? || r.UnloadKey?)
    ensures Live(Effect(a, r, v, w), r.id) == Live(a, r.id)
    ensures r.SaveKey? && Answer(a, r) == 0 ==> Live(Store(map[], Effect(a, r, v, w).stored), r.id) == Live(a, r.id)
    ensures r.UnloadKey? && Answer(a, r) == 0 ==> r.id !in Effect(a, r, v, w).cached
  {
  }

  /** Import sets the key exactly unless it is too long for the slot that still
      holds the old one. */
  lemma ImportTakes(a: Store, r: Request, v: u32)
    requires Valid(a) && Legal(a, r, v, 0) && r.ImportKey? && r.id != 0
    ensures (var e := Live(Effect(a, r, v, 0), r.id);
             e.Some? && e.value.data == r.data && (Locked(e.value) <==> r.flags & LOCKED != 0))
            <==> |r.data| <= BUFSIZE || r.id !in a.cached
    ensures |r.data| > BUFSIZE && r.id in a.cached ==> Live(Effect(a, r, v, 0), r.id) == Live(a, r.id)
  {
  }

  /** All flags but CRYPTO_F_NOT_EXPORTABLE. */
  function Unlocked(f: bv32): (b: bv32)
  {
    f & 0xFFFF_FF7F
  }

  lemma OtherBits(kept: bv32)
    ensures Unlocked(WithLock(kept)) == Unlocked(kept) == Unlocked(WithoutLock(kept))
  {
  }

  lemma FlagsKept(kept: bv32, flags: bv32)
    ensures Unlocked(ImportFlags(kept, flags)) == Unlocked(kept)
  {
    hide Unlocked, WithLock, WithoutLock;
    OtherBits(kept);
  }

  /** The other flags of an imported key are those of the key that had its slot before,
      even when that was another key. */
  lemma ImportBits(a: Store, id: u32, v: u32, data: seq<byte>, flags: bv32)
    requires id != 0 && |data| <= BUFSIZE && v in a.cached && id !in a.cached
    ensures Unlocked(Effect(a, ImportKey(id, data, flags), v, 0).cached[id].flags) == Unlocked(a.cached[v].flags)
  {
    hide Unlocked, ImportFlags;
    FlagsKept(a.cached[v].flags, flags);
  }

  /** Export brings a key from flash into a slot exactly when it is shorter than a slot. */
  lemma ExportCaches(a: Store, id: u32, v: u32, buflen: nat)
    requires Valid(a) && id != 0 && MayLeave(a, id, v) && id !in a.cached && Answer(a, ExportKey(id, buflen)) >= 0
    ensures id in a.stored
    ensures id in Effect(a, ExportKey(id, buflen), v, 0).cached <==> |a.stored[id].data| < BUFSIZE
  {
  }

  /** An import that succeeds, and whose key is not the one that export finds. */
  lemma LongImportLost(a: Store, id: u32, v: u32, short: seq<byte>, long: seq<byte>, flags: bv32)
    requires Valid(a) && id != 0 && MayLeave(a, id, v) && |short| <= BUFSIZE < |long|
    ensures var b := Effect(a, ImportKey(id, short, flags), v, 0);
            var c := Effect(b, ImportKey(id, long, flags), 0, 0);
            Answer(b, ImportKey(id, long, flags)) == 0 && Live(c, id).value.data == short && c.stored[id].data == long
  {
  }

  /** Load keeps the key exactly when flash holds the same. */
  lemma LoadKeeps(a: Store, id: u32, v: u32)
    requires Valid(a) && Legal(a, LoadKey(id), v, 0) && Answer(a, LoadKey(id)) == 0
    ensures Live(Effect(a, LoadKey(id), v, 0), id) == Live(a, id) <==> Live(a, id) == Some(a.stored[id])
    ensures Live(Effect(a, LoadKey(id), v, 0), id) == Some(a.stored[id])
  {
  }

  /** Reserving an id, and deleting one, answer for the live keys exactly while every
      cached key has a copy in flash. */
  lemma FlashAnswers(a: Store)
    requires Valid(a)
    ensures (forall id: u32 :: id != 0 ==> (Answer(a, ReserveKey(id)) == 0 <==> Live(a, id) == None))
            <==> a.cached.Keys <= a.stored.Keys
    ensures (forall id: u32 :: id != 0 ==> (Answer(a, DeleteKey(id)) == 0 <==> Live(a, id) != None))
            <==> a.cached.Keys <= a.stored.Keys
  {
    if id: u32 :| id in a.cached && id !in a.stored {
      assert Answer(a, ReserveKey(id)) == 0 && Answer(a, DeleteKey(id)) == ENOENT && Live(a, id) != None;
    }
  }

  /** A key that was imported and not saved: its id can be reserved and not deleted. */
  lemma ImportedIsFree(a: Store, id: u32, v: u32, data: seq<byte>, flags: bv32)
    requires Valid(a) && id != 0 && Live(a, id) == None && MayLeave(a, id, v) && 0 < |data| <= BUFSIZE
    ensures var b := Effect(a, ImportKey(id, data, flags), v, 0);
            && Live(b, id).Some? && Live(b, id).value.data == data
            && Answer(b, ReserveKey(id)) == 0 && Answer(b, DeleteKey(id)) == ENOENT
  {
  }

  /** Data that flash takes and that cannot pass for the placeholder. */
  ghost predicate Proper(data: seq<byte>)
  {
    !(data <= MAGIC)
  }

  /** A key that has to leave its slot comes back by export exactly when it is
      proper: a prefix of the placeholder reads as absent, no bytes are dropped. */
  lemma SurvivesFlash(a: Store, v: u32, id: u32, data: seq<byte>, other: u32, e: Entry, buflen: nat)
    requires Valid(a) && MayLeave(a, id, v) && id != 0 && other != id && |data| <= BUFSIZE && |data| <= buflen
    ensures var b := Install(Effect(a, ImportKey(id, data, 0), v, 0), id, other, e);
            (Answer(b, ExportKey(id, buflen)) == |data| && Exported(b, ExportKey(id, buflen)) == data) <==> Proper(data)
  {
    assert [] <= MAGIC;
  }

  /** Unloading refuses an empty key, which then answers from its slot. */
  lemma SurvivesUnload(a: Store, v: u32, id: u32, data: seq<byte>, buflen: nat)
    requires Valid(a) && MayLeave(a, id, v) && id != 0 && |data| <= BUFSIZE && |data| <= buflen
    ensures var b := Effect(Effect(a, ImportKey(id, data, 0), v, 0), UnloadKey(id), 0, 0);
            (Answer(b, ExportKey(id, buflen)) == |data| && Exported(b, ExportKey(id, buflen)) == data)
            <==> Proper(data) || data == []
  {
    assert [] <= MAGIC;
  }

  /** The placeholder of a reserved id becomes, by a load, a key that export hands out. */
  lemma LoadedPlaceholder(a: Store, id: u32, v: u32, buflen: nat)
    requires Valid(a) && id != 0 && Live(a, id) == None && MayLeave(a, id, v) && |MAGIC| <= BUFSIZE && |MAGIC| <= buflen
    ensures var b := Effect(Effect(a, ReserveKey(id), 0, 0), LoadKey(id), v, 0);
            Answer(b, ExportKey(id, buflen)) == |MAGIC| && Exported(b, ExportKey(id, buflen)) == MAGIC
    ensures Answer(Effect(a, ReserveKey(id), 0, 0), ExportKey(id, buflen)) == ENOENT
  {
  }

  /** Load puts a proper key into the slot exactly when flash holds one. */
  lemma LoadProper(a: Store, id: u32, v: u32)
    requires Answer(a, LoadKey(id)) == 0
    ensures var b := Effect(a, LoadKey(id), v, 0);
            id in b.cached && (Proper(b.cached[id].data) <==> Proper(a.stored[id].data))
  {
  }

  /** A load after an import undoes it, back to what was saved. */
  lemma LoadUndoesImport(a: Store, id: u32, v: u32, saved: seq<byte>, data: seq<byte>, flags: bv32)
    requires Valid(a) && id != 0 && MayLeave(a, id, v) && 0 < |saved| <= BUFSIZE && |data| <= BUFSIZE
    ensures var b := Effect(Effect(a, ImportKey(id, saved, flags), v, 0), SaveKey(id), 0, 0);
            var c := Effect(Effect(b, ImportKey(id, data, flags), 0, 0), LoadKey(id), 0, 0);
            Live(c, id) == Live(b, id) && Live(c, id).value.data == saved
  {
  }

  /** A new pair is in flash exactly unless the old public key was pushed out of its
      slot, and over the new one, to make room for the private key. */
  lemma PairInFlash(a: Store, r: Request, v: u32, w: u32)
    requires Valid(a) && Legal(a, r, v, w) && r.GeneratePair? && Answer(a, r) == 0 && 32 <= BUFSIZE && r.id != r.pub
    requires r.pub in a.cached ==> a.cached[r.pub].data != [] && a.cached[r.pub] != Entry(r.point, 0)
    ensures var b := Effect(a, r, v, w); r.pub in b.stored && (b.stored[r.pub] == Entry(r.point, 0) <==> v != r.pub)
    ensures var b := Effect(a, r, v, w);
            Live(b, r.pub) == Some(Entry(r.point, 0)) <==> 64 <= BUFSIZE || r.pub !in a.cached
  {
  }

  /** A pair whose public id was imported before: flash ends with the old public key
      when it is the one that makes room for the private key. */
  lemma OldPublicInFlash(a: Store, id: u32, pub: u32, v: u32, w: u32,
                         before: seq<byte>, priv: seq<byte>, point: seq<byte>)
    requires Valid(a) && id != 0 && pub != 0 && id != pub && MayLeave(a, pub, v) && id !in a.cached
    requires |priv| == 32 && |point| == 64 && 32 <= BUFSIZE && 0 < |before| <= BUFSIZE
    requires var b := Effect(a, ImportKey(pub, before, 0), v, 0);
             Legal(b, GeneratePair(id, pub, true, priv, point), pub, w)
    ensures var b := Effect(a, ImportKey(pub, before, 0), v, 0);
            var r := GeneratePair(id, pub, true, priv, point);
            Answer(b, r) == 0 && Effect(b, r, pub, w).stored[pub].data == before
  {
  }
}
