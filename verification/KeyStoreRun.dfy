/** crypto/cryptosoft.c: whole runs of the key manager, against one plain map. */
module KeyStoreRun {
  import opened KeyStore
  import opened Machine
  import opened Wrappers

  /** What a key is to its users. */
  datatype Key = Key(data: seq<byte>, locked: bool)

  type Keys = map<u32, Key>

  /** The keys of a store as one map; placeholders are not keys. */
  ghost function View(a: Store): (m: Keys)
  {
    map id: u32 | id in a.cached.Keys + a.stored.Keys && Proper(Live(a, id).value.data)
      :: Key(Live(a, id).value.data, Locked(Live(a, id).value))
  }

  /** What an operation does to the one map. */
  ghost function Apply(m: Keys, r: Request): (n: Keys)
  {
    match r
    case ImportKey(id, data, flags) => if id == 0 then m else m[id := Key(data, flags & LOCKED != 0)]
    case DeleteKey(id) => m - {id}
    case GenerateKey(id, random) => if |random| !in {16, 24, 32} || id == 0 then m else m[id := Key(random, false)]
    case GeneratePair(id, pub, made, priv, point) =>
      if id == 0 || pub == 0 || !made then m else m[id := Key(priv, true)][pub := Key(point, false)]
    case _ => m
  }

  /** The ids whose slot may differ from flash: imported and not saved since, or the
      public half of a pair, whose old copy may have been written over the new. */
  ghost function Unsaved(dirty: set<u32>, r: Request): (d: set<u32>)
  {
    match r
    case ImportKey(id, _, _) => dirty + {id}
    case DeleteKey(id) => dirty - {id}
    case SaveKey(id) => dirty - {id}
    case UnloadKey(id) => dirty - {id}
    case GeneratePair(_, pub, _, _, _) => dirty + {pub}
    case _ => dirty
  }

  /** What a caller who knows only the map has to respect: keys fit a slot and are
      not a prefix of the placeholder, and load is for keys that are saved. */
  ghost predicate Fair(m: Keys, dirty: set<u32>, r: Request)
  {
    match r
    case ImportKey(_, data, _) => Proper(data) && |data| <= BUFSIZE
    case GenerateKey(_, random) => |random| <= BUFSIZE
    case GeneratePair(_, _, _, _, _) => 64 <= BUFSIZE
    case LoadKey(id) => id in m && id !in dirty
    case _ => true
  }

  /** Cached keys are proper, and saved ones agree with flash. */
  ghost predicate Sound(a: Store, dirty: set<u32>)
  {
    && Valid(a)
    && (forall id: u32 :: id in a.cached ==> Proper(a.cached[id].data))
    && (forall id: u32 :: id in a.cached && id !in dirty ==> id in a.stored && a.stored[id] == a.cached[id])
  }

  /** What the map, and which of its keys are saved, allow an operation to answer.  Flash
      may or may not hold an id that is not in the map, reserved, or one that is not
      saved, and a slot may or may not hold a key. */
  ghost predicate Agrees(m: Keys, dirty: set<u32>, r: Request, ret: int, buf: seq<byte>)
  {
    match r
    case AllocKey(n) =>
      && ret in {0, ENOMEM}
      && ((forall id: u32 :: 1 <= id <= n ==> id in m && id !in dirty) ==> ret == ENOMEM)
    case ReserveKey(id) =>
      if id == 0 then ret == EINVAL
      else if id in m && id !in dirty then ret == EEXIST
      else ret in {0, EEXIST}
    case DeleteKey(id) =>
      if id == 0 then ret == EINVAL
      else if id in m && id !in dirty then ret == 0
      else ret in {0, ENOENT}
    case GenerateKey(id, random) => ret == if |random| !in {16, 24, 32} || id == 0 then EINVAL else 0
    case GeneratePair(id, pub, made, _, _) => ret == if id == 0 || pub == 0 || !made then EINVAL else 0
    case SaveKey(id) => ret == EINVAL || (ret == 0 && id in m)
    case UnloadKey(id) => ret == EINVAL || (ret == 0 && id in m)
    case ExportKey(id, buflen) =>
      if id == 0 then ret == EINVAL
      else if id !in m then ret in {ENOENT, EACCES, ENOBUFS}
      else if m[id].locked then ret == EACCES
      else if |m[id].data| > buflen then ret == ENOBUFS
      else ret == |m[id].data| && buf == m[id].data
    case ImportKey(id, _, _) => ret == if id == 0 then EINVAL else 0
    case LoadKey(id) => ret == if id in m && |m[id].data| > BUFSIZE then EFBIG else 0
  }

  lemma LongIsProper(data: seq<byte>)
    requires |data| > 10
    ensures Proper(data)
  {
  }

  lemma NothingDropped(a: Store, dirty: set<u32>, r: Request, v: u32, w: u32, k: u32)
    requires Sound(a, dirty)
    ensures !Drops(a, r, v, w, k)
  {
    assert [] <= MAGIC;
  }

  lemma InstallSound(a: Store, dirty: set<u32>, v: u32, id: u32, e: Entry)
    requires Sound(a, dirty + {id}) && MayLeave(a, id, v) && id != 0 && Proper(e.data) && |e.data| <= BUFSIZE
    ensures Sound(Install(a, v, id, e), dirty + {id})
    ensures id in a.stored && a.stored[id] == e ==> Sound(Install(a, v, id, e), dirty)
  {
  }

  lemma WriteBackSound(a: Store, dirty: set<u32>, v: u32)
    requires Sound(a, dirty)
    ensures Sound(WriteBack(a, v), dirty)
    ensures v in a.cached ==> Sound(WriteBack(a, v), dirty - {v})
  {
    assert [] <= MAGIC;
  }

  lemma PairSound(a: Store, dirty: set<u32>, r: Request, v: u32, w: u32)
    requires Sound(a, dirty) && Legal(a, r, v, w) && Fair(View(a), dirty, r) && r.GeneratePair?
    ensures Sound(Effect(a, r, v, w), Unsaved(dirty, r))
  {
    hide Install;
    if Answer(a, r) != 0 {
      return;
    }
    LongIsProper(r.priv);
    LongIsProper(r.point);
    var d := dirty + {r.pub};
    var b := a.(stored := a.stored[r.id := Entry(r.priv, LOCKED)][r.pub := Entry(r.point, 0)]);
    assert Sound(b, d + {r.id});
    InstallSound(b, d, v, r.id, Entry(r.priv, LOCKED));
    assert r.id == r.pub ==> d + {r.id} == d;
    assert d + {r.pub} == d;
    InstallSound(HalfPair(a, r, v), d, w, r.pub, Entry(r.point, 0));
  }

  lemma ImportSound(a: Store, dirty: set<u32>, r: Request, v: u32, w: u32)
    requires Sound(a, dirty) && Legal(a, r, v, w) && Fair(View(a), dirty, r) && r.ImportKey?
    ensures Sound(Effect(a, r, v, w), Unsaved(dirty, r))
  {
    hide Install, WriteBack;
    if r.id != 0 {
      assert dirty + {r.id} + {r.id} == dirty + {r.id};
      InstallSound(a, dirty, v, r.id, Entry(r.data, ImportFlags(SlotFlags(a, v, r.id), r.flags)));
    }
  }

  lemma GenerateSound(a: Store, dirty: set<u32>, r: Request, v: u32, w: u32)
    requires Sound(a, dirty) && Legal(a, r, v, w) && Fair(View(a), dirty, r) && r.GenerateKey?
    ensures Sound(Effect(a, r, v, w), Unsaved(dirty, r))
  {
    hide Install, WriteBack;
    if Answer(a, r) == 0 {
      LongIsProper(r.random);
      var b := a.(stored := a.stored[r.id := Entry(r.random, 0)]);
      assert Sound(b, dirty + {r.id});
      InstallSound(b, dirty, v, r.id, Entry(r.random, 0));
    }
  }

  lemma LoadSound(a: Store, dirty: set<u32>, r: Request, v: u32, w: u32)
    requires Sound(a, dirty) && Legal(a, r, v, w) && Fair(View(a), dirty, r) && r.LoadKey?
    ensures Sound(Effect(a, r, v, w), Unsaved(dirty, r))
  {
    hide Install, WriteBack;
    if Answer(a, r) == 0 {
      InstallSound(a, dirty, v, r.id, a.stored[r.id]);
    }
  }

  lemma ExportSound(a: Store, dirty: set<u32>, r: Request, v: u32, w: u32)
    requires Sound(a, dirty) && Legal(a, r, v, w) && Fair(View(a), dirty, r) && r.ExportKey?
    ensures Sound(Effect(a, r, v, w), Unsaved(dirty, r))
  {
    hide Install, WriteBack;
    WriteBackSound(a, dirty, v);
    if Fills(a, r) {
      InstallSound(a, dirty, v, r.id, a.stored[r.id]);
    }
  }

  lemma SaveSound(a: Store, dirty: set<u32>, r: Request, v: u32, w: u32)
    requires Sound(a, dirty) && Legal(a, r, v, w) && Fair(View(a), dirty, r) && r.SaveKey?
    ensures Sound(Effect(a, r, v, w), Unsaved(dirty, r))
  {
    hide Install, WriteBack;
    assert [] <= MAGIC;
    if r.id in a.cached {
      WriteBackSound(a, dirty, r.id);
      WriteBackCached(a, r.id);
    } else {
      WriteBackSound(a, dirty, v);
      WriteBackCached(a, v);
    }
  }

  lemma UnloadSound(a: Store, dirty: set<u32>, r: Request, v: u32, w: u32)
    requires Sound(a, dirty) && Legal(a, r, v, w) && Fair(View(a), dirty, r) && r.UnloadKey?
    ensures Sound(Effect(a, r, v, w), Unsaved(dirty, r))
  {
    hide Install, WriteBack;
    assert [] <= MAGIC;
    if r.id in a.cached {
      WriteBackSound(a, dirty, r.id);
      WriteBackCached(a, r.id);
    } else {
      WriteBackSound(a, dirty, v);
      WriteBackCached(a, v);
    }
  }

  lemma DeleteSound(a: Store, dirty: set<u32>, r: Request, v: u32, w: u32)
    requires Sound(a, dirty) && Legal(a, r, v, w) && Fair(View(a), dirty, r) && r.DeleteKey?
    ensures Sound(Effect(a, r, v, w), Unsaved(dirty, r))
  {
    hide Install, WriteBack;
    WriteBackSound(a, dirty, v);
    WriteBackCached(a, v);
  }

  lemma ReserveSound(a: Store, dirty: set<u32>, r: Request, v: u32, w: u32)
    requires Sound(a, dirty) && Legal(a, r, v, w) && Fair(View(a), dirty, r) && (r.ReserveKey? || r.AllocKey?)
    ensures Sound(Effect(a, r, v, w), Unsaved(dirty, r))
  {
    hide Install, WriteBack;
    assert MAGIC[0] == 83;
  }

  /** Every fair operation keeps the store sound. */
  lemma StepSound(a: Store, dirty: set<u32>, r: Request, v: u32, w: u32)
    requires Sound(a, dirty) && Legal(a, r, v, w) && Fair(View(a), dirty, r)
    ensures Sound(Effect(a, r, v, w), Unsaved(dirty, r))
  {
    hide Sound, Legal, View, Fair, Effect, Unsaved;
    match r
    case ImportKey(_, _, _) => ImportSound(a, dirty, r, v, w);
    case GenerateKey(_, _) => GenerateSound(a, dirty, r, v, w);
    case GeneratePair(_, _, _, _, _) => PairSound(a, dirty, r, v, w);
    case LoadKey(_) => LoadSound(a, dirty, r, v, w);
    case ExportKey(_, _) => ExportSound(a, dirty, r, v, w);
    case SaveKey(_) => SaveSound(a, dirty, r, v, w);
    case UnloadKey(_) => UnloadSound(a, dirty, r, v, w);
    case DeleteKey(_) => DeleteSound(a, dirty, r, v, w);
    case ReserveKey(_) => ReserveSound(a, dirty, r, v, w);
    case AllocKey(_) => ReserveSound(a, dirty, r, v, w);
  }

  /** What users see of a key. */
  ghost function Visible(e: Option<Entry>): (k: Option<Key>)
  {
    if e.Some? && Proper(e.value.data) then Some(Key(e.value.data, Locked(e.value))) else None
  }

  lemma ViewGet(a: Store, id: u32)
    ensures Get(View(a), id) == Visible(Live(a, id))
  {
  }

  /** The key that an operation is about, after it. */
  lemma OwnStep(a: Store, dirty: set<u32>, r: Request, v: u32, w: u32, k: u32)
    requires Sound(a, dirty) && Legal(a, r, v, w) && Fair(View(a), dirty, r) && About(a, r, k) && k != 0
    ensures Visible(Live(Effect(a, r, v, w), k)) == Get(Apply(View(a), r), k)
  {
    ViewGet(a, k);
    assert MAGIC <= MAGIC;
    if r.GeneratePair? {
      OwnPair(a, dirty, r, v, w, k);
    }
  }

  lemma OwnPair(a: Store, dirty: set<u32>, r: Request, v: u32, w: u32, k: u32)
    requires Sound(a, dirty) && Legal(a, r, v, w) && 64 <= BUFSIZE && About(a, r, k) && k != 0 && r.GeneratePair?
    ensures Visible(Live(Effect(a, r, v, w), k)) == Get(Apply(View(a), r), k)
  {
    ViewGet(a, k);
    LongIsProper(r.priv);
    LongIsProper(r.point);
  }

  lemma WriteBackCached(a: Store, v: u32)
    ensures WriteBack(a, v).cached == a.cached
  {
  }

  /** One fair operation, on slots and flash and on the one map. */
  lemma ViewStep(a: Store, dirty: set<u32>, r: Request, v: u32, w: u32)
    requires Sound(a, dirty) && Legal(a, r, v, w) && Fair(View(a), dirty, r)
    ensures View(Effect(a, r, v, w)) == Apply(View(a), r)
    ensures Agrees(View(a), dirty, r, Answer(a, r), Exported(a, r))
  {
    hide Effect, View, Live, Legal, Fair;
    var b := Effect(a, r, v, w);
    EffectValid(a, r, v, w);
    forall k: u32 ensures Get(View(b), k) == Get(Apply(View(a), r), k) {
      ViewGet(b, k);
      if k == 0 {
        NoZero(a);
        NoZero(b);
      } else if About(a, r, k) {
        OwnStep(a, dirty, r, v, w, k);
      } else {
        NothingDropped(a, dirty, r, v, w, k);
        OthersKept(a, r, v, w, k);
        ViewGet(a, k);
        OthersApart(View(a), a, r, k);
      }
    }
    SameMaps(View(b), Apply(View(a), r));
    AnswerAgrees(a, dirty, r);
  }

  lemma NoZero(a: Store)
    requires Valid(a)
    ensures Get(View(a), 0) == None
  {
  }

  lemma OthersApart(m: Keys, a: Store, r: Request, k: u32)
    requires !About(a, r, k)
    ensures Get(Apply(m, r), k) == Get(m, k)
  {
  }

  lemma AnswerAgrees(a: Store, dirty: set<u32>, r: Request)
    requires Sound(a, dirty) && Fair(View(a), dirty, r)
    ensures Agrees(View(a), dirty, r, Answer(a, r), Exported(a, r))
  {
    if r.AllocKey? {
      forall id: u32 | 1 <= id <= r.nkeys && id in View(a) && id !in dirty ensures id in a.stored {
        ViewGet(a, id);
      }
    } else {
      ViewGet(a, r.id);
    }
  }

  /** What the map leaves open is open: two stores that look alike to a user, keys
      unsaved alike, and answer a delete, a reserve and a save differently. */
  lemma AnswersOpen(id: u32, e: Entry)
    requires id != 0 && Proper(e.data) && |e.data| <= BUFSIZE
    ensures var a, b, c := Store(map[id := e], map[]), Store(map[id := e], map[id := e]), Store(map[], map[id := e]);
            && Sound(a, {id}) && Sound(b, {id}) && Sound(c, {id}) && View(a) == View(b) == View(c)
            && Answer(a, DeleteKey(id)) == ENOENT && Answer(b, DeleteKey(id)) == 0
            && Answer(a, ReserveKey(id)) == 0 && Answer(b, ReserveKey(id)) == EEXIST
            && Answer(b, SaveKey(id)) == 0 && Answer(c, SaveKey(id)) == EINVAL
  {
    assert [] <= MAGIC;
    var a, b, c := Store(map[id := e], map[]), Store(map[id := e], map[id := e]), Store(map[], map[id := e]);
    assert View(a) == View(b) == View(c);
  }

  /** A run, with what each operation took its slots from. */
  datatype Step = Step(r: Request, v: u32, w: u32)

  ghost function After(a: Store, run: seq<Step>): (b: Store)
  {
    if |run| == 0 then a
    else var s := run[|run| - 1]; Effect(After(a, run[..|run| - 1]), s.r, s.v, s.w)
  }

  ghost function MapAfter(m: Keys, run: seq<Step>): (n: Keys)
  {
    if |run| == 0 then m else Apply(MapAfter(m, run[..|run| - 1]), run[|run| - 1].r)
  }

  ghost function UnsavedAfter(dirty: set<u32>, run: seq<Step>): (d: set<u32>)
  {
    if |run| == 0 then dirty else Unsaved(UnsavedAfter(dirty, run[..|run| - 1]), run[|run| - 1].r)
  }

  ghost predicate LegalRun(a: Store, run: seq<Step>)
  {
    forall i :: 0 <= i < |run| ==> Legal(After(a, run[..i]), run[i].r, run[i].v, run[i].w)
  }

  /** Fairness is judged on the one map alone. */
  ghost predicate FairRun(m: Keys, dirty: set<u32>, run: seq<Step>)
  {
    forall i :: 0 <= i < |run| ==> Fair(MapAfter(m, run[..i]), UnsavedAfter(dirty, run[..i]), run[i].r)
  }

  /** Over every run, whatever leaves the slots and when, the keys in slots and flash
      are those of one map, and the answers are ones that the map allows: all there is
      to say of exports, imports, loads and generated keys.  Which ids can be reserved,
      deleted, saved and unloaded also depends on where a key is (AnswersOpen). */
  lemma {:induction false} OneMap(a: Store, dirty: set<u32>, run: seq<Step>)
    requires Sound(a, dirty) && LegalRun(a, run) && FairRun(View(a), dirty, run)
    ensures View(After(a, run)) == MapAfter(View(a), run)
    ensures Sound(After(a, run), UnsavedAfter(dirty, run))
    ensures forall i :: 0 <= i < |run| ==>
              Agrees(MapAfter(View(a), run[..i]), UnsavedAfter(dirty, run[..i]), run[i].r,
                     Answer(After(a, run[..i]), run[i].r), Exported(After(a, run[..i]), run[i].r))
  {
    hide Effect, View, Sound, Legal, Fair, Agrees, Apply, Unsaved, Answer, Exported;
    if |run| != 0 {
      var n := |run| - 1;
      var before, s := run[..n], run[n];
      assert forall i :: 0 <= i < n ==> before[i] == run[i] && before[..i] == run[..i];
      OneMap(a, dirty, before);
      StepSound(After(a, before), UnsavedAfter(dirty, before), s.r, s.v, s.w);
      ViewStep(After(a, before), UnsavedAfter(dirty, before), s.r, s.v, s.w);
    }
  }

  /** The answers of a run. */
  ghost predicate Answered(a: Store, run: seq<Step>, rets: seq<int>, bufs: seq<seq<byte>>)
  {
    && |rets| == |bufs| == |run|
    && forall i :: 0 <= i < |run| ==>
         rets[i] == Answer(After(a, run[..i]), run[i].r) && bufs[i] == Exported(After(a, run[..i]), run[i].r)
  }

  lemma RunNext(a: Store, run: seq<Step>, s: Step, rets: seq<int>, bufs: seq<seq<byte>>, ret: int, buf: seq<byte>)
    requires LegalRun(a, run) && Answered(a, run, rets, bufs) && Legal(After(a, run), s.r, s.v, s.w)
    requires ret == Answer(After(a, run), s.r) && buf == Exported(After(a, run), s.r)
    ensures LegalRun(a, run + [s]) && After(a, run + [s]) == Effect(After(a, run), s.r, s.v, s.w)
    ensures Answered(a, run + [s], rets + [ret], bufs + [buf])
  {
    hide Answer, Exported, Legal, Effect, After;
    var next := run + [s];
    AfterNext(a, run, s);
    forall i | 0 <= i < |next|
      ensures Legal(After(a, next[..i]), next[i].r, next[i].v, next[i].w)
      ensures (rets + [ret])[i] == Answer(After(a, next[..i]), next[i].r)
      ensures (bufs + [buf])[i] == Exported(After(a, next[..i]), next[i].r)
    {
      if i < |run| {
        assert next[..i] == run[..i] && next[i] == run[i];
      } else {
        assert next[..i] == run;
      }
    }
  }

  lemma AfterNext(a: Store, run: seq<Step>, s: Step)
    ensures After(a, run + [s]) == Effect(After(a, run), s.r, s.v, s.w)
  {
    hide Effect;
    assert (run + [s])[..|run|] == run;
  }
}
