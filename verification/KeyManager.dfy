/** crypto/cryptosoft.c: requests to the key manager, one and many. */
module KeyManager {
  import opened KeyCache
  import opened KeyOrder
  import opened KeyStore
  import opened KeyStoreRun
  import opened Machine

  /** swkey_kprocess: the request and what it took its slots from. */
  method Process(c: Context, r: Request) returns (ret: int, buf: seq<byte>, ghost s: Step)
    requires c.Valid() && WellFormed(r)
    modifies c
    ensures c.Valid() && s.r == r && Legal(old(c.State()), r, s.v, s.w)
    ensures c.State() == Effect(old(c.State()), r, s.v, s.w)
    ensures ret == Answer(old(c.State()), r) && buf == Exported(old(c.State()), r)
    ensures c.Whole() == Next(old(c.Whole()), r)
  {
    hide Context.Listed, Context.State, KeyStore.Valid, Effect, Answer, Legal, Ids, Halfway, ToFront, Victim;
    buf := [];
    ghost var v, w := 0, 0;
    NoSlotTaken(c.State(), r);
    match r {
      case AllocKey(nkeys) => var id; ret, id := c.Alloc(nkeys);
      case ReserveKey(id) => ret := c.Reserve(id);
      case ImportKey(id, data, flags) => ret, v := c.Import(id, data, flags);
      case DeleteKey(id) => ret, v := c.Delete(id);
      case ExportKey(id, buflen) => ret, buf, v := c.Export(id, buflen);
      case GenerateKey(id, random) => ret, v := c.Generate(id, random);
      case GeneratePair(id, pub, made, priv, point) => ret, v, w := c.GeneratePairOf(id, pub, made, priv, point);
      case SaveKey(id) => ret, v := c.Save(id);
      case LoadKey(id) => ret, v := c.LoadFlash(id);
      case UnloadKey(id) => ret, v := c.Unload(id);
    }
    s := Step(r, v, w);
  }

  lemma NoSlotTaken(a: Store, r: Request)
    ensures r.AllocKey? || r.ReserveKey? ==> Legal(a, r, 0, 0)
  {
  }

  /** Every run of requests is a run of the two maps, with the same answers; and a
      run that is fair is one of the one map, whatever left the slots meanwhile. */
  method Run(c: Context, rs: seq<Request>) returns (rets: seq<int>, bufs: seq<seq<byte>>, ghost run: seq<Step>)
    requires c.Valid() && forall i :: 0 <= i < |rs| ==> WellFormed(rs[i])
    modifies c
    ensures c.Valid() && |run| == |rs| && forall i :: 0 <= i < |rs| ==> run[i].r == rs[i]
    ensures LegalRun(old(c.State()), run) && c.State() == After(old(c.State()), run)
    ensures Answered(old(c.State()), run, rets, bufs)
    ensures c.Whole() == Served(old(c.Whole()), rs)
    ensures forall n: nat | n < |rs| && Undisturbed(rs, n, NSLOTS) :: rs[n].id in c.State().cached
    ensures forall dirty: set<u32> | Sound(old(c.State()), dirty) && FairRun(View(old(c.State())), dirty, run) ::
              && View(c.State()) == MapAfter(View(old(c.State())), run)
              && forall i :: 0 <= i < |run| ==> Agrees(MapAfter(View(old(c.State())), run[..i]),
                                                       UnsavedAfter(dirty, run[..i]), run[i].r, rets[i], bufs[i])
  {
    hide Context.Listed, Context.State, KeyStore.Valid, Effect, Answer, Exported, Legal, LegalRun, After;
    hide WellFormed, Sound, View, MapAfter, UnsavedAfter, FairRun, Agrees, Served, Next, Holds;
    hide Context.Whole;
    ghost var a, m := c.State(), c.Whole();
    WholeHolds(c);
    ServedNone(m);
    rets, bufs, run := [], [], [];
    EmptyRun(a);
    assert rs[..0] == [];
    for n := 0 to |rs|
      invariant c.Valid() && |run| == n && forall i :: 0 <= i < n ==> run[i].r == rs[i]
      invariant LegalRun(a, run) && c.State() == After(a, run) && Answered(a, run, rets, bufs)
      invariant c.Whole() == Served(m, rs[..n])
    {
      ServedNext(m, rs, n);
      var ret, buf, s := Process(c, rs[n]);
      RunNext(a, run, s, rets, bufs, ret, buf);
      rets, bufs, run := rets + [ret], bufs + [buf], run + [s];
    }
    assert rs[..|rs|] == rs;
    forall n: nat | n < |rs| && Undisturbed(rs, n, NSLOTS) ensures rs[n].id in c.State().cached {
      ImportStays(m, rs, n);
      WholeStore(c);
    }
    forall dirty: set<u32> | Sound(a, dirty) && FairRun(View(a), dirty, run)
      ensures View(c.State()) == MapAfter(View(a), run)
      ensures forall i :: 0 <= i < |run| ==>
                Agrees(MapAfter(View(a), run[..i]), UnsavedAfter(dirty, run[..i]), run[i].r, rets[i], bufs[i])
    {
      OneMap(a, dirty, run);
    }
  }

  lemma EmptyRun(a: Store)
    ensures LegalRun(a, []) && After(a, []) == a
  {
  }

  lemma WholeHolds(c: Context)
    requires c.Listed()
    ensures Holds(c.Whole().order, c.Whole().store.cached)
  {
    hide Cache, Ids, Distinct;
    CacheIds(c.slots);
  }

  lemma WholeStore(c: Context)
    requires c.Listed()
    ensures c.Whole().store == c.State()
  {
  }

  lemma ServedNone(m: Manager)
    requires |m.order| > 0
    ensures Served(m, []) == m
  {
  }

  lemma ServedNext(m: Manager, rs: seq<Request>, n: nat)
    requires |m.order| > 0 && n < |rs|
    ensures Served(m, rs[..n + 1]) == Next(Served(m, rs[..n]), rs[n])
  {
    hide Next;
    assert rs[..n + 1][..n] == rs[..n];
  }
}
