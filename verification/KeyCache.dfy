/** crypto/cryptosoft.c: the software key manager as it is, a list of slots in front
    of flash, least recently used slot last.  Every operation is one of the two
    maps. */
module KeyCache {
  import opened KeyOrder
  import opened KeyStore
  import opened Machine

  /** A slot whose id is zero is free. */
  datatype Slot = Slot(id: u32, key: Entry)

  const FREE := Slot(0, Entry([], 0))

  /** NSLOTS of the configuration, 4 by default. */
  type SlotCount = n: nat | 1 <= n witness 4
  const NSLOTS: SlotCount

  ghost predicate Distinct(s: seq<Slot>)
  {
    forall i, j :: 0 <= i < j < |s| && s[i].id != 0 ==> s[i].id != s[j].id
  }

  lemma DistinctAt(s: seq<Slot>, i: nat, j: nat)
    requires Distinct(s) && i < |s| && j < |s| && i != j && s[i].id != 0
    ensures s[i].id != s[j].id
  {
  }

  /** The keys that the slots hold. */
  ghost function Cache(s: seq<Slot>): (m: map<u32, Entry>)
    requires Distinct(s)
  {
    map i | 0 <= i < |s| && s[i].id != 0 :: s[i].id := s[i].key
  }

  /** A slot may take an id that it holds already or that no slot holds. */
  ghost predicate MayStore(s: seq<Slot>, i: nat, t: Slot)
    requires i < |s|
  {
    t.id == 0 || s[i].id == t.id || forall j :: 0 <= j < |s| ==> s[j].id != t.id
  }

  lemma CacheOf(s: seq<Slot>, i: nat)
    requires Distinct(s) && i < |s| && s[i].id != 0
    ensures s[i].id in Cache(s) && Cache(s)[s[i].id] == s[i].key
  {
  }

  lemma SlotOf(s: seq<Slot>, id: u32) returns (i: nat)
    requires Distinct(s) && id in Cache(s)
    ensures i < |s| && s[i].id == id && id != 0 && s[i].key == Cache(s)[id]
  {
    i :| 0 <= i < |s| && s[i].id != 0 && s[i].id == id;
  }

  lemma StoreDistinct(s: seq<Slot>, i: nat, t: Slot)
    requires Distinct(s) && i < |s| && MayStore(s, i, t)
    ensures Distinct(s[i := t])
  {
  }

  /** The keys after a slot is written. */
  ghost function Stored(m: map<u32, Entry>, v: u32, t: Slot): (n: map<u32, Entry>)
  {
    if t.id == 0 then m - {v} else (m - {v})[t.id := t.key]
  }

  lemma CacheStoreAt(s: seq<Slot>, i: nat, t: Slot, id: u32)
    requires Distinct(s) && i < |s| && MayStore(s, i, t) && Distinct(s[i := t])
    ensures Get(Cache(s[i := t]), id) == Get(Stored(Cache(s), s[i].id, t), id)
  {
    hide Cache, Distinct;
    var r := s[i := t];
    if id in Cache(r) {
      var j := SlotOf(r, id);
      if j != i {
        CacheOf(s, j);
        if s[i].id == id {
          DistinctAt(s, i, j);
        }
        if t.id == id {
          DistinctAt(r, i, j);
        }
      }
    } else {
      if t.id == id && id != 0 {
        CacheOf(r, i);
      }
      if id in Cache(s) && id != s[i].id {
        var j := SlotOf(s, id);
        CacheOf(r, j);
      }
    }
  }

  lemma CacheStore(s: seq<Slot>, i: nat, t: Slot)
    requires Distinct(s) && i < |s| && MayStore(s, i, t)
    ensures Distinct(s[i := t]) && Cache(s[i := t]) == Stored(Cache(s), s[i].id, t)
  {
    hide Cache, Distinct, Stored, Get, MayStore;
    StoreDistinct(s, i, t);
    forall id: u32 ensures Get(Cache(s[i := t]), id) == Get(Stored(Cache(s), s[i].id, t), id) {
      CacheStoreAt(s, i, t, id);
    }
    SameMaps(Cache(s[i := t]), Stored(Cache(s), s[i].id, t));
  }

  /** swkey_promote_cache_data */
  function Promoted(s: seq<Slot>, i: nat): (r: seq<Slot>)
    requires i < |s|
    ensures |r| == |s|
  {
    [s[i]] + s[..i] + s[i + 1..]
  }

  /** Where the elements of a promoted list come from, and go. */
  function Source(i: nat, k: nat): (r: nat)
  {
    if k == 0 then i else if k <= i then k - 1 else k
  }

  function Target(i: nat, k: nat): (r: nat)
  {
    if k == i then 0 else if k < i then k + 1 else k
  }

  /** The ids of the slots in order, free ones as zero. */
  ghost function Ids(s: seq<Slot>): (o: seq<u32>)
    ensures |o| == |s|
  {
    seq(|s|, i requires 0 <= i < |s| => s[i].id)
  }

  lemma PromotedIds(s: seq<Slot>, i: nat, t: Slot)
    requires i < |s| && i == Place(Ids(s), t.id)
    ensures Ids(Promoted(s[i := t], i)) == ToFront(Ids(s), t.id)
  {
    hide Place;
  }

  lemma CleanIds(s: seq<Slot>, i: nat)
    requires i < |s| && s[i].id != 0 && Distinct(s)
    ensures Ids(s[i := FREE]) == Erased(Ids(s), s[i].id)
  {
    FindIs(Ids(s), s[i].id, i);
  }

  lemma SlotFound(s: seq<Slot>, i: nat)
    requires i < |s| && s[i].id != 0 && Distinct(s)
    ensures Find(Ids(s), s[i].id) == i
  {
    FindIs(Ids(s), s[i].id, i);
  }

  lemma SlotMissing(s: seq<Slot>, id: u32)
    requires forall k :: 0 <= k < |s| ==> s[k].id != id
    ensures Find(Ids(s), id) == |s|
  {
  }

  lemma PromotedAt(s: seq<Slot>, i: nat, k: nat)
    requires i < |s| && k < |s|
    ensures Source(i, k) < |s| && Promoted(s, i)[k] == s[Source(i, k)]
    ensures Target(i, k) < |s| && Promoted(s, i)[Target(i, k)] == s[k]
  {
  }

  lemma PromotedDistinct(s: seq<Slot>, i: nat)
    requires i < |s| && Distinct(s)
    ensures Distinct(Promoted(s, i))
  {
    hide Promoted;
    var r := Promoted(s, i);
    forall j, k | 0 <= j < k < |r| && r[j].id != 0 ensures r[j].id != r[k].id {
      PromotedAt(s, i, j);
      PromotedAt(s, i, k);
      DistinctAt(s, Source(i, j), Source(i, k));
    }
  }

  /** Promotion keeps the slots and with them the keys. */
  lemma PromotedSlots(s: seq<Slot>, i: nat)
    requires i < |s|
    ensures multiset(Promoted(s, i)) == multiset(s)
  {
    assert s == s[..i] + [s[i]] + s[i + 1..];
  }

  lemma CachePromoted(s: seq<Slot>, i: nat)
    requires i < |s| && Distinct(s)
    ensures Distinct(Promoted(s, i)) && Cache(Promoted(s, i)) == Cache(s)
  {
    hide Promoted, Cache, Distinct;
    var r := Promoted(s, i);
    PromotedDistinct(s, i);
    forall id: u32 ensures Get(Cache(r), id) == Get(Cache(s), id) {
      if id in Cache(r) {
        var j := SlotOf(r, id);
        PromotedAt(s, i, j);
        CacheOf(s, Source(i, j));
      }
      if id in Cache(s) {
        var j := SlotOf(s, id);
        PromotedAt(s, i, j);
        CacheOf(r, Target(i, j));
      }
    }
    SameMaps(Cache(r), Cache(s));
  }

  class Context {
    var slots: seq<Slot>
    var flash: map<u32, Entry>

    ghost predicate Listed()
      reads `slots
    {
      && |slots| == NSLOTS && Distinct(slots)
      && (forall i :: 0 <= i < |slots| && slots[i].id == 0 ==> slots[i] == FREE)
    }

    /** The two maps that the slots and flash are. */
    ghost function State(): (a: Store)
      reads this
      requires Listed()
    {
      Store(Cache(slots), flash)
    }

    ghost predicate Valid()
      reads this
    {
      Listed() && KeyStore.Valid(State())
    }

    /** The two maps and the order of the slots. */
    ghost function Whole(): (m: Manager)
      reads this
      requires Listed()
      ensures |m.order| == NSLOTS
    {
      Manager(State(), Ids(slots))
    }

    /** swkey_context_init */
    constructor (contents: map<u32, Entry>)
      requires KeyStore.Valid(Store(map[], contents))
      ensures Valid() && State() == Store(map[], contents) && slots == seq(NSLOTS, _ => FREE)
    {
      slots := seq(NSLOTS, _ => FREE);
      flash := contents;
    }

    /** swkey_write, when the store accepts it */
    method Write(id: u32, key: Entry) returns (ret: int)
      modifies `flash
      ensures ret == if id == 0 || key.data == [] then EINVAL else 0
      ensures flash == if ret == 0 then old(flash)[id := key] else old(flash)
    {
      if id == 0 || |key.data| == 0 {
        return EINVAL;
      }
      flash := flash[id := key];
      return 0;
    }

    /** swkey_get_cache_data: the slot of the id, or the last slot once its key v is
        safe in flash. */
    method GetCacheData(id: u32) returns (i: nat, ghost v: u32)
      requires Listed() && id != 0
      modifies `flash
      ensures i < |slots| && (slots[i].id == id <==> id in Cache(slots))
      ensures id !in Cache(slots) ==> i == |slots| - 1 && Erased(Ids(slots), id) == Ids(slots)
      ensures i == Place(Ids(slots), id) && v == Victim(Ids(slots), id)
      ensures v == if slots[i].id == id then 0 else slots[i].id
      ensures MayLeave(old(State()), id, v) && State() == WriteBack(old(State()), v)
      ensures slots[i].id == id ==> slots[i].key == Cache(slots)[id]
    {
      hide Cache, Distinct;
      i, v := 0, 0;
      while i < |slots| && slots[i].id != id
        invariant i <= |slots|
        invariant forall k :: 0 <= k < i ==> slots[k].id != id
      {
        i := i + 1;
      }
      NoZeroId(slots);
      if i == |slots| {
        SlotMissing(slots, id);
        if id in Cache(slots) {
          var j := SlotOf(slots, id);
        }
        i := |slots| - 1;
        v := slots[i].id;
        if slots[i].id != 0 {
          CacheOf(slots, i);
          var ret := Write(slots[i].id, slots[i].key);
        }
      } else {
        CacheOf(slots, i);
        SlotFound(slots, i);
      }
    }

    /** A slot is filled and moved to the front. */
    method Fill(i: nat, t: Slot)
      requires Listed() && i < |slots| && t.id != 0
      requires (slots[i].id == t.id || t.id !in Cache(slots)) && i == Place(Ids(slots), t.id)
      modifies `slots
      ensures Listed() && slots == [t] + old(slots)[..i] + old(slots)[i + 1..]
      ensures Ids(slots) == ToFront(Ids(old(slots)), t.id)
      ensures Cache(slots)
           == (Cache(old(slots)) - {if old(slots[i].id) == t.id then 0 else old(slots[i].id)})[t.id := t.key]
    {
      hide Cache, Distinct;
      PromotedIds(slots, i, t);
      NotCached(slots, t.id);
      NoZeroId(slots);
      CacheStore(slots, i, t);
      slots := slots[i := t];
      CachePromoted(slots, i);
      forall k | 0 <= k < |slots| && Promoted(slots, i)[k].id == 0 ensures Promoted(slots, i)[k] == FREE {
        PromotedAt(slots, i, k);
      }
      slots := Promoted(slots, i);
    }

    /** A slot is moved to the front as it is. */
    method Promote(i: nat)
      requires Listed() && i < |slots|
      modifies `slots
      ensures Listed() && Cache(slots) == Cache(old(slots)) && multiset(slots) == multiset(old(slots))
      ensures slots == [old(slots)[i]] + old(slots)[..i] + old(slots)[i + 1..]
      ensures old(slots)[i].id != 0 ==> Ids(slots) == ToFront(Ids(old(slots)), old(slots)[i].id)
    {
      hide Cache, Distinct;
      if slots[i].id != 0 {
        SlotFound(slots, i);
        PromotedIds(slots, i, slots[i]);
        assert slots[i := slots[i]] == slots;
      }
      CachePromoted(slots, i);
      PromotedSlots(slots, i);
      forall k | 0 <= k < |slots| && Promoted(slots, i)[k].id == 0 ensures Promoted(slots, i)[k] == FREE {
        PromotedAt(slots, i, k);
      }
      slots := Promoted(slots, i);
    }

    /** swkey_clean_cache_data */
    method Clean(i: nat)
      requires Listed() && i < |slots|
      modifies `slots
      ensures Listed() && Cache(slots) == Cache(old(slots)) - {old(slots[i].id)} && slots == old(slots)[i := FREE]
      ensures old(slots)[i].id != 0 ==> Ids(slots) == Erased(Ids(old(slots)), old(slots)[i].id)
    {
      hide Cache, Distinct;
      if slots[i].id != 0 { CleanIds(slots, i); }
      CacheStore(slots, i, FREE);
      slots := slots[i := FREE];
    }

    /** swkey_import */
    method Import(id: u32, data: seq<byte>, flags: bv32) returns (ret: int, ghost v: u32)
      requires Valid()
      modifies this
      ensures Valid() && Legal(old(State()), ImportKey(id, data, flags), v, 0)
      ensures State() == Effect(old(State()), ImportKey(id, data, flags), v, 0)
      ensures ret == Answer(old(State()), ImportKey(id, data, flags))
      ensures Ids(slots) == Next(old(Whole()), ImportKey(id, data, flags)).order
      ensures v == FirstVictim(old(Whole()), ImportKey(id, data, flags))
    {
      hide Cache, Distinct, Ids, ToFront, Erased, Victim, Place, Find;
      v := 0;
      if id == 0 {
        return EINVAL, 0;
      }
      if |data| > BUFSIZE {
        ret := Write(id, Entry(data, flags));
        return;
      }
      ghost var a := State();
      var i;
      i, v := GetCacheData(id);
      if slots[i].id != 0 {
        CacheOf(slots, i);
      }
      var kept := slots[i].key.flags;
      Fill(i, Slot(id, Entry(data, ImportFlags(kept, flags))));
      EffectValid(a, ImportKey(id, data, flags), v, 0);
      ret := 0;
    }

    /** swkey_delete */
    method Delete(id: u32) returns (ret: int, ghost v: u32)
      requires Valid()
      modifies this
      ensures Valid() && Legal(old(State()), DeleteKey(id), v, 0)
      ensures State() == Effect(old(State()), DeleteKey(id), v, 0) && ret == Answer(old(State()), DeleteKey(id))
      ensures Ids(slots) == Next(old(Whole()), DeleteKey(id)).order && v == FirstVictim(old(Whole()), DeleteKey(id))
    {
      hide Cache, Distinct, Ids, ToFront, Erased, Victim, Place, Find;
      v := 0;
      if id == 0 {
        return EINVAL, 0;
      }
      ghost var a := State();
      var i;
      i, v := GetCacheData(id);
      if slots[i].id == id {
        Clean(i);
      }
      EffectValid(a, DeleteKey(id), v, 0);
      assert id !in Cache(slots) && Cache(slots) == a.cached - {id};
      if id !in flash {
        assert flash - {id} == flash;
        return ENOENT, v;
      }
      flash := flash - {id};
      ret := 0;
    }

    /** swkey_save */
    method Save(id: u32) returns (ret: int, ghost v: u32)
      requires Valid()
      modifies this
      ensures Valid() && Legal(old(State()), SaveKey(id), v, 0)
      ensures State() == Effect(old(State()), SaveKey(id), v, 0) && ret == Answer(old(State()), SaveKey(id))
      ensures Ids(slots) == Next(old(Whole()), SaveKey(id)).order && v == FirstVictim(old(Whole()), SaveKey(id))
    {
      hide Cache, Distinct, Ids, ToFront, Erased, Victim, Place, Find;
      v := 0;
      if id == 0 {
        return EINVAL, 0;
      }
      ghost var a := State();
      ret := EINVAL;
      var i;
      i, v := GetCacheData(id);
      EffectValid(a, SaveKey(id), v, 0);
      if slots[i].id == id {
        ret := Write(id, slots[i].key);
        if ret < 0 {
          return;
        }
        Promote(i);
      }
    }

    /** swkey_load: flash first, then a slot */
    method LoadFlash(id: u32) returns (ret: int, ghost v: u32)
      requires Valid()
      modifies this
      ensures Valid() && Legal(old(State()), LoadKey(id), v, 0)
      ensures State() == Effect(old(State()), LoadKey(id), v, 0) && ret == Answer(old(State()), LoadKey(id))
      ensures Ids(slots) == Next(old(Whole()), LoadKey(id)).order && v == FirstVictim(old(Whole()), LoadKey(id))
    {
      hide Cache, Distinct, Ids, ToFront, Erased, Victim, Place, Find;
      v := 0;
      if id == 0 {
        return EINVAL, 0;
      }
      if id !in flash {
        return ENOENT, 0;
      }
      var e := flash[id];
      if |e.data| > BUFSIZE {
        return EFBIG, 0;
      }
      ghost var a := State();
      var i;
      i, v := GetCacheData(id);
      Fill(i, Slot(id, Entry(e.data, flash[id].flags)));
      EffectValid(a, LoadKey(id), v, 0);
      ret := 0;
    }

    /** swkey_unload */
    method Unload(id: u32) returns (ret: int, ghost v: u32)
      requires Valid()
      modifies this
      ensures Valid() && Legal(old(State()), UnloadKey(id), v, 0)
      ensures State() == Effect(old(State()), UnloadKey(id), v, 0) && ret == Answer(old(State()), UnloadKey(id))
      ensures Ids(slots) == Next(old(Whole()), UnloadKey(id)).order && v == FirstVictim(old(Whole()), UnloadKey(id))
    {
      hide Cache, Distinct, Ids, ToFront, Erased, Victim, Place, Find;
      v := 0;
      if id == 0 {
        return EINVAL, 0;
      }
      ghost var a := State();
      ret := EINVAL;
      var i;
      i, v := GetCacheData(id);
      EffectValid(a, UnloadKey(id), v, 0);
      if slots[i].id == id {
        ret := Write(id, slots[i].key);
        if ret < 0 {
          return;
        }
        Clean(i);
      }
    }

    /** swkey_export */
    method Export(id: u32, buflen: nat) returns (ret: int, buf: seq<byte>, ghost v: u32)
      requires Valid()
      modifies this
      ensures Valid() && Legal(old(State()), ExportKey(id, buflen), v, 0)
      ensures State() == Effect(old(State()), ExportKey(id, buflen), v, 0)
      ensures ret == Answer(old(State()), ExportKey(id, buflen)) && buf == Exported(old(State()), ExportKey(id, buflen))
      ensures Ids(slots) == Next(old(Whole()), ExportKey(id, buflen)).order
      ensures v == FirstVictim(old(Whole()), ExportKey(id, buflen))
    {
      hide Cache, Distinct, Ids, ToFront, Erased, Victim, Place, Find;
      buf, v := [], 0;
      if id == 0 {
        return EINVAL, [], 0;
      }
      ghost var a := State();
      var i;
      i, v := GetCacheData(id);
      EffectValid(a, ExportKey(id, buflen), v, 0);
      if slots[i].id == id {
        if Locked(slots[i].key) {
          return EACCES, [], v;
        }
        if buflen < |slots[i].key.data| {
          return ENOBUFS, [], v;
        }
        buf, ret := slots[i].key.data, |slots[i].key.data|;
        Promote(i);
        return;
      }
      if id !in flash {
        return ENOENT, [], v;
      }
      var e := flash[id];
      if Locked(e) {
        return EACCES, [], v;
      }
      if |e.data| > buflen {
        return ENOBUFS, [], v;
      }
      if e.data <= MAGIC {
        return ENOENT, [], v;
      }
      buf, ret := e.data, |e.data|;
      if ret < BUFSIZE {
        Fill(i, Slot(id, e));
      }
    }

    /** swkey_is_valid: an id is free when flash has nothing under it, and is then
        taken with a placeholder. */
    method Reserve(id: u32) returns (ret: int)
      requires Valid()
      modifies `flash
      ensures Valid() && State() == Effect(old(State()), ReserveKey(id), 0, 0)
      ensures ret == Answer(old(State()), ReserveKey(id))
      ensures Ids(slots) == Next(old(Whole()), ReserveKey(id)).order
    {
      hide Cache, Distinct, Ids, ToFront, Erased, Victim, Place, Find;
      if id == 0 {
        return EINVAL;
      }
      EffectValid(State(), ReserveKey(id), 0, 0);
      if id !in flash {
        assert MAGIC[0] == 83;
        ret := Write(id, PLACEHOLDER);
        return;
      }
      return EEXIST;
    }

    /** swkey_alloc: the first id that flash does not hold. */
    method Alloc(nkeys: u32) returns (ret: int, id: u32)
      requires Valid()
      modifies `flash
      ensures Valid() && State() == Effect(old(State()), AllocKey(nkeys), 0, 0)
      ensures ret == Answer(old(State()), AllocKey(nkeys)) && id == FirstFree(old(flash), 1, nkeys)
      ensures ret == 0 ==> 1 <= id <= nkeys && id !in old(flash) && flash == old(flash)[id := PLACEHOLDER]
      ensures forall k: u32 :: 1 <= k <= nkeys && (ret != 0 || k < id) ==> k in old(flash)
      ensures Ids(slots) == Next(old(Whole()), AllocKey(nkeys)).order
    {
      hide Cache, Distinct, Ids, ToFront, Erased, Victim, Place, Find;
      id := 0;
      var i := 1;
      while i <= nkeys
        invariant 1 <= i <= nkeys + 1 && Valid() && flash == old(flash)
        invariant FirstFree(flash, 1, nkeys) == FirstFree(flash, i, nkeys)
      {
        var r := Reserve(i);
        if r == 0 {
          return 0, i;
        }
        i := i + 1;
      }
      return ENOMEM, 0;
    }

    /** swkey_gen_aes_key, given its random bytes, behind the length check of
        swkey_kprocess */
    method Generate(id: u32, random: seq<byte>) returns (ret: int, ghost v: u32)
      requires Valid()
      modifies this
      ensures Valid() && Legal(old(State()), GenerateKey(id, random), v, 0)
      ensures State() == Effect(old(State()), GenerateKey(id, random), v, 0)
      ensures ret == Answer(old(State()), GenerateKey(id, random))
      ensures Ids(slots) == Next(old(Whole()), GenerateKey(id, random)).order
      ensures v == FirstVictim(old(Whole()), GenerateKey(id, random))
    {
      hide Cache, Distinct, Ids, ToFront, Erased, Victim, Place, Find;
      v := 0;
      if (|random| != 16 && |random| != 24 && |random| != 32) || id == 0 {
        return EINVAL, 0;
      }
      ghost var a := State();
      ret := Write(id, Entry(random, 0));
      if |random| <= BUFSIZE {
        v := PutFresh(id, Entry(random, 0));
      }
      EffectValid(a, GenerateKey(id, random), v, 0);
    }

    /** A key just written to flash gets a slot as well. */
    method PutFresh(id: u32, e: Entry) returns (ghost v: u32)
      requires Listed() && id != 0
      modifies this
      ensures Listed() && MayLeave(old(State()), id, v) && State() == Install(old(State()), v, id, e)
      ensures Ids(slots) == ToFront(old(Ids(slots)), id) && v == Victim(old(Ids(slots)), id)
    {
      hide Cache, Distinct, Ids, ToFront, Erased, Victim, Place, Find;
      var i;
      i, v := GetCacheData(id);
      Fill(i, Slot(id, e));
    }

    /** swkey_gen_secp256r1_key, given what ecc_make_key_uncomp made */
    method GeneratePairOf(id: u32, pub: u32, made: bool, priv: seq<byte>, point: seq<byte>)
      returns (ret: int, ghost v: u32, ghost w: u32)
      requires Valid() && |priv| == 32 && |point| == 64
      modifies this
      ensures Valid() && Legal(old(State()), GeneratePair(id, pub, made, priv, point), v, w)
      ensures State() == Effect(old(State()), GeneratePair(id, pub, made, priv, point), v, w)
      ensures ret == Answer(old(State()), GeneratePair(id, pub, made, priv, point))
      ensures Ids(slots) == Next(old(Whole()), GeneratePair(id, pub, made, priv, point)).order
      ensures v == FirstVictim(old(Whole()), GeneratePair(id, pub, made, priv, point))
      ensures w == SecondVictim(old(Whole()), GeneratePair(id, pub, made, priv, point))
    {
      hide Cache, Distinct, Install, Ids, ToFront, Victim, Place, Find;
      v, w := 0, 0;
      if id == 0 || pub == 0 || !made {
        return EINVAL, 0, 0;
      }
      ghost var a := State();
      ret := Write(id, Entry(priv, LOCKED));
      ret := Write(pub, Entry(point, 0));
      if BUFSIZE >= 32 {
        v := PutFresh(id, Entry(priv, LOCKED));
      }
      if BUFSIZE >= 64 {
        w := PutFresh(pub, Entry(point, 0));
      }
      EffectValid(a, GeneratePair(id, pub, made, priv, point), v, w);
    }
  }

  lemma NoZeroId(s: seq<Slot>)
    requires Distinct(s)
    ensures 0 !in Cache(s)
  {
  }

  lemma NotCached(s: seq<Slot>, id: u32)
    requires Distinct(s) && id != 0
    ensures id !in Cache(s) ==> forall j :: 0 <= j < |s| ==> s[j].id != id
  {
  }

  /** The ids in order are those of the cached keys. */
  lemma CacheIds(s: seq<Slot>)
    requires Distinct(s)
    ensures Holds(Ids(s), Cache(s))
  {
    hide Cache;
    forall id: u32 ensures id in Cache(s) <==> id != 0 && id in Ids(s) {
      if id in Cache(s) {
        var i := SlotOf(s, id);
        assert Ids(s)[i] == id;
      }
      if id != 0 && id in Ids(s) {
        var i :| 0 <= i < |s| && Ids(s)[i] == id;
        CacheOf(s, i);
      }
    }
  }
}
