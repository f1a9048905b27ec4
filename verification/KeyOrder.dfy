/** crypto/cryptosoft.c: the order of the key slots, most recently used first, and how
    long a key keeps its slot. */
module KeyOrder {
  import opened KeyStore
  import opened Machine

  /** The first slot of an id, or the number of slots. */
  function Find(o: seq<u32>, id: u32): (i: nat)
    ensures i <= |o| && (i < |o| ==> o[i] == id)
    ensures forall k :: 0 <= k < i ==> o[k] != id
  {
    if o == [] then 0 else if o[0] == id then 0 else 1 + Find(o[1..], id)
  }

  /** The slot that an id gets: its own, or else the last one. */
  function Place(o: seq<u32>, id: u32): (i: nat)
    requires |o| > 0
    ensures i < |o|
  {
    if Find(o, id) < |o| then Find(o, id) else |o| - 1
  }

  /** That slot, moved to the front. */
  function ToFront(o: seq<u32>, id: u32): (r: seq<u32>)
    requires |o| > 0
    ensures |r| == |o|
  {
    [id] + o[..Place(o, id)] + o[Place(o, id) + 1..]
  }

  /** The slot of an id made free where it is. */
  function Erased(o: seq<u32>, id: u32): (r: seq<u32>)
    ensures |r| == |o|
  {
    if Find(o, id) < |o| then o[Find(o, id) := 0] else o
  }

  /** The id that leaves its slot for another. */
  function Victim(o: seq<u32>, id: u32): (v: u32)
    requires |o| > 0
  {
    if Find(o, id) < |o| then 0 else o[|o| - 1]
  }

  /** The slots and flash as two maps, and the ids of the slots in order. */
  datatype Manager = Manager(store: Store, order: seq<u32>)

  /** Whether an operation looks for the slot of its id. */
  ghost predicate Looks(a: Store, r: Request)
  {
    match r
    case AllocKey(_) => false
    case ReserveKey(_) => false
    case ImportKey(id, data, _) => id != 0 && |data| <= BUFSIZE
    case GenerateKey(_, random) => Answer(a, r) == 0 && |random| <= BUFSIZE
    case GeneratePair(_, _, _, _, _) => Answer(a, r) == 0 && 32 <= BUFSIZE
    case LoadKey(_) => Answer(a, r) == 0
    case _ => r.id != 0
  }

  /** Whether it moves that slot to the front. */
  ghost predicate Uses(a: Store, r: Request)
  {
    match r
    case SaveKey(_) => Answer(a, r) == 0
    case ExportKey(id, _) => id != 0 && Answer(a, r) >= 0 && (id in a.cached || Answer(a, r) < BUFSIZE)
    case DeleteKey(_) => false
    case UnloadKey(_) => false
    case _ => Looks(a, r)
  }

  ghost function FirstVictim(m: Manager, r: Request): (v: u32)
    requires |m.order| > 0
  {
    if Looks(m.store, r) then Victim(m.order, r.id) else 0
  }

  /** The order after the first half of an operation, or all of it. */
  ghost function Halfway(m: Manager, r: Request): (o: seq<u32>)
    requires |m.order| > 0
    ensures |o| == |m.order|
  {
    if Uses(m.store, r) then ToFront(m.order, r.id)
    else if (r.DeleteKey? && r.id != 0) || (r.UnloadKey? && Answer(m.store, r) == 0) then Erased(m.order, r.id)
    else m.order
  }

  ghost predicate Twice(a: Store, r: Request)
  {
    r.GeneratePair? && Answer(a, r) == 0 && 64 <= BUFSIZE
  }

  ghost function SecondVictim(m: Manager, r: Request): (w: u32)
    requires |m.order| > 0
  {
    if Twice(m.store, r) then Victim(Halfway(m, r), r.pub) else 0
  }

  /** One request. */
  ghost function Next(m: Manager, r: Request): (n: Manager)
    requires |m.order| > 0
    ensures |n.order| == |m.order|
  {
    Manager(Effect(m.store, r, FirstVictim(m, r), SecondVictim(m, r)),
            if Twice(m.store, r) then ToFront(Halfway(m, r), r.pub) else Halfway(m, r))
  }

  ghost function Served(m: Manager, rs: seq<Request>): (n: Manager)
    requires |m.order| > 0
    ensures |n.order| == |m.order|
  {
    if rs == [] then m else Next(Served(m, rs[..|rs| - 1]), rs[|rs| - 1])
  }

  lemma FindIs(o: seq<u32>, id: u32, i: nat)
    requires i < |o| && o[i] == id && forall k :: 0 <= k < i ==> o[k] != id
    ensures Find(o, id) == i
  {
    assert Find(o, id) <= i;
  }

  /** The ids that came to the front since a key was last used, each counted again when it
      gave its slot up in between. */
  datatype Crowd = Crowd(ids: set<u32>, count: nat)

  function Joined(c: Crowd, j: u32, k: u32): (d: Crowd)
  {
    if j == 0 || j == k || j in c.ids then c else Crowd(c.ids + {j}, c.count + 1)
  }

  function Parted(c: Crowd, j: u32): (d: Crowd)
  {
    Crowd(c.ids - {j}, c.count)
  }

  /** Requests for other keys than k, whatever they answer. */
  function CrowdNext(c: Crowd, r: Request, k: u32): (d: Crowd)
    ensures d.count >= c.count
  {
    match r
    case AllocKey(_) => c
    case ReserveKey(_) => c
    case DeleteKey(id) => Parted(c, id)
    case UnloadKey(id) => Parted(c, id)
    case GeneratePair(id, pub, _, _, _) => Joined(Joined(c, id, k), pub, k)
    case _ => Joined(c, r.id, k)
  }

  function CrowdOf(rs: seq<Request>, k: u32): (c: Crowd)
  {
    if rs == [] then Crowd({}, 0) else CrowdNext(CrowdOf(rs[..|rs| - 1], k), rs[|rs| - 1], k)
  }

  /** The ids in front of k. */
  ghost function Ahead(o: seq<u32>, k: u32): (s: set<u32>)
  {
    set i | 0 <= i < Find(o, k) :: o[i]
  }

  /** The slots in front of k, and the crowd that may still come there, are counted. */
  ghost predicate Safe(o: seq<u32>, k: u32, c: Crowd)
  {
    && Find(o, k) < |o| && 0 !in c.ids && k !in c.ids && |c.ids| <= c.count
    && Find(o, k) + |c.ids - Ahead(o, k)| <= c.count
  }

  lemma AheadHas(o: seq<u32>, k: u32, i: nat)
    requires i < Find(o, k)
    ensures o[i] in Ahead(o, k)
  {
  }

  /** Where the elements of a list with slot q moved to the front come from, and go. */
  lemma FrontAt(o: seq<u32>, j: u32, i: nat)
    requires |o| > 0 && i < |o|
    ensures ToFront(o, j)[i] == if i == 0 then j else if i <= Place(o, j) then o[i - 1] else o[i]
    ensures i < Place(o, j) ==> ToFront(o, j)[i + 1] == o[i]
    ensures i > Place(o, j) ==> ToFront(o, j)[i] == o[i]
  {
  }

  /** An id in front of k moves: k and the ids in front of it stay. */
  lemma FrontWithin(o: seq<u32>, j: u32, k: u32)
    requires |o| > 0 && j != k && Find(o, j) < Find(o, k) < |o|
    ensures Find(ToFront(o, j), k) == Find(o, k) && Ahead(ToFront(o, j), k) == Ahead(o, k)
  {
    hide ToFront, Ahead;
    var p, r := Find(o, k), ToFront(o, j);
    forall i | 0 <= i <= p ensures r[i] == k <==> i == p { FrontAt(o, j, i); }
    FindIs(r, k, p);
    forall x ensures x in Ahead(r, k) <==> x in Ahead(o, k) {
      FrontWithinAt(o, j, k, x);
    }
  }

  lemma FrontWithinAt(o: seq<u32>, j: u32, k: u32, x: u32)
    requires |o| > 0 && j != k && Find(o, j) < Find(o, k) == Find(ToFront(o, j), k) < |o|
    ensures x in Ahead(ToFront(o, j), k) <==> x in Ahead(o, k)
  {
    hide ToFront, Find;
    var p, q, r := Find(o, k), Place(o, j), ToFront(o, j);
    if x in Ahead(r, k) {
      var i :| 0 <= i < p && r[i] == x;
      FrontAt(o, j, i);
      AheadHas(o, k, if i == 0 then q else if i <= q then i - 1 else i);
    }
    if x in Ahead(o, k) {
      var i :| 0 <= i < p && o[i] == x;
      FrontAt(o, j, i);
      FrontAt(o, j, 0);
      AheadHas(r, k, if i == q then 0 else if i < q then i + 1 else i);
    }
  }

  /** An id from behind k, or from nowhere, comes to the front: k goes back by one. */
  lemma FrontPast(o: seq<u32>, j: u32, k: u32)
    requires |o| > 0 && j != k && Find(o, k) < Find(o, j) && Find(o, k) < |o| - 1
    ensures Find(ToFront(o, j), k) == Find(o, k) + 1 && Ahead(ToFront(o, j), k) == Ahead(o, k) + {j}
  {
    hide ToFront, Ahead;
    var p, r := Find(o, k), ToFront(o, j);
    forall i | 0 <= i <= p + 1 ensures r[i] == k <==> i == p + 1 { FrontAt(o, j, i); }
    FindIs(r, k, p + 1);
    forall x ensures x in Ahead(r, k) <==> x in Ahead(o, k) + {j} {
      FrontPastAt(o, j, k, x);
    }
  }

  lemma FrontPastAt(o: seq<u32>, j: u32, k: u32, x: u32)
    requires |o| > 0 && Find(o, k) < Find(o, j) && Find(o, k) < |o| - 1 && Find(ToFront(o, j), k) == Find(o, k) + 1
    ensures x in Ahead(ToFront(o, j), k) <==> x in Ahead(o, k) + {j}
  {
    hide ToFront, Find;
    var p, r := Find(o, k), ToFront(o, j);
    FrontAt(o, j, 0);
    if x in Ahead(r, k) {
      var i :| 0 <= i < p + 1 && r[i] == x;
      FrontAt(o, j, i);
      if i > 0 { AheadHas(o, k, i - 1); }
    }
    if x in Ahead(o, k) {
      var i :| 0 <= i < p && o[i] == x;
      FrontAt(o, j, i);
      AheadHas(r, k, i + 1);
    }
    AheadHas(r, k, 0);
  }

  /** A request that leaves the slots alone only adds to the crowd. */
  lemma JoinedSafe(o: seq<u32>, k: u32, c: Crowd, j: u32)
    requires Safe(o, k, c)
    ensures Safe(o, k, Joined(c, j, k))
  {
    hide Find, Ahead;
    if Joined(c, j, k) != c {
      var a := Ahead(o, k);
      assert c.ids + {j} - a == if j in a then c.ids - a else (c.ids - a) + {j};
    }
  }

  lemma FrontSafe(o: seq<u32>, k: u32, c: Crowd, j: u32)
    requires |o| > 0 && Safe(o, k, c) && j != 0 && j != k && Joined(c, j, k).count < |o|
    ensures Safe(ToFront(o, j), k, Joined(c, j, k))
  {
    hide Find, ToFront, Ahead;
    var d, a := Joined(c, j, k), Ahead(o, k);
    if Find(o, j) < Find(o, k) {
      FrontWithin(o, j, k);
      JoinedSafe(o, k, c, j);
    } else {
      NotAhead(o, j, k);
      LessOne(c.ids, a, j);
      assert d.ids - (a + {j}) == c.ids - (a + {j});
      FrontPast(o, j, k);
    }
  }

  lemma LessOne(f: set<u32>, a: set<u32>, j: u32)
    requires j !in a
    ensures |f - (a + {j})| == |f - a| - if j in f then 1 else 0
  {
    assert f - (a + {j}) == f - a - {j};
    assert j in f ==> f - a == (f - a - {j}) + {j};
    assert j !in f ==> f - a - {j} == f - a;
  }

  lemma InAhead(o: seq<u32>, j: u32, k: u32)
    requires Find(o, j) < Find(o, k)
    ensures j in Ahead(o, k)
  {
    AheadHas(o, k, Find(o, j));
  }

  lemma NotAhead(o: seq<u32>, j: u32, k: u32)
    requires Find(o, j) >= Find(o, k) && j != k && Find(o, k) < |o|
    ensures j !in Ahead(o, k) && Find(o, j) > Find(o, k)
  {
  }

  lemma ErasedAhead(o: seq<u32>, k: u32, j: u32)
    requires j != k && k != 0 && Find(o, k) < |o|
    ensures Find(Erased(o, j), k) == Find(o, k) && Ahead(o, k) <= Ahead(Erased(o, j), k) + {j}
  {
    var e := Erased(o, j);
    FindIs(e, k, Find(o, k));
    forall x | x in Ahead(o, k) && x != j ensures x in Ahead(e, k) {
      var i :| 0 <= i < Find(o, k) && o[i] == x;
      AheadHas(e, k, i);
    }
  }

  lemma PartedSafe(o: seq<u32>, k: u32, c: Crowd, j: u32)
    requires Safe(o, k, c) && j != k && k != 0
    ensures Safe(Erased(o, j), k, Parted(c, j))
    ensures Safe(o, k, Parted(c, j))
  {
    hide Find, Ahead, Erased;
    ErasedAhead(o, k, j);
    Smaller(c.ids - {j}, c.ids);
    Smaller(c.ids - {j} - Ahead(o, k), c.ids - Ahead(o, k));
    Smaller(c.ids - {j} - Ahead(Erased(o, j), k), c.ids - Ahead(o, k));
  }

  lemma Smaller(a: set<u32>, b: set<u32>)
    requires a <= b
    ensures |a| <= |b|
  {
    assert b == a + (b - a);
  }

  /** A key that is used is in the first slot, whatever the crowd. */
  lemma UsedSafe(o: seq<u32>, k: u32, c: Crowd)
    requires |o| > 0 && Safe(o, k, c)
    ensures Safe(ToFront(o, k), k, c)
  {
    FindIs(ToFront(o, k), k, 0);
    assert Ahead(ToFront(o, k), k) == {};
    assert c.ids - {} == c.ids;
  }

  /** One request for any keys keeps the count. */
  lemma RequestSafe(m: Manager, k: u32, c: Crowd, r: Request)
    requires |m.order| > 0 && k != 0 && Safe(m.order, k, c) && CrowdNext(c, r, k).count < |m.order|
    requires r != DeleteKey(k) && r != UnloadKey(k)
    ensures Safe(Next(m, r).order, k, CrowdNext(c, r, k))
  {
    hide Safe, ToFront, Erased, Effect;
    var o := m.order;
    if r.DeleteKey? || r.UnloadKey? {
      PartedSafe(o, k, c, r.id);
    } else if !r.AllocKey? && !r.ReserveKey? {
      HalfSafe(m, k, c, r);
      if r.GeneratePair? {
        var d := Joined(c, r.id, k);
        JoinedSafe(Halfway(m, r), k, d, r.pub);
        if Twice(m.store, r) {
          if r.pub == k { UsedSafe(Halfway(m, r), k, d); } else { FrontSafe(Halfway(m, r), k, d, r.pub); }
        }
      }
    }
  }

  lemma HalfSafe(m: Manager, k: u32, c: Crowd, r: Request)
    requires |m.order| > 0 && k != 0 && Safe(m.order, k, c)
    requires !r.AllocKey? && !r.ReserveKey? && !r.DeleteKey? && !r.UnloadKey?
    requires Joined(c, r.id, k).count < |m.order|
    ensures Safe(Halfway(m, r), k, Joined(c, r.id, k))
  {
    hide Safe, ToFront, Erased;
    JoinedSafe(m.order, k, c, r.id);
    if Uses(m.store, r) {
      if r.id == k { UsedSafe(m.order, k, c); } else { FrontSafe(m.order, k, c, r.id); }
    }
  }

  lemma {:induction false} RunSafe(m: Manager, k: u32, rs: seq<Request>)
    requires |m.order| > 0 && k != 0 && m.order[0] == k && CrowdOf(rs, k).count < |m.order|
    requires DeleteKey(k) !in rs && UnloadKey(k) !in rs
    ensures Safe(Served(m, rs).order, k, CrowdOf(rs, k))
  {
    hide Safe, Next, CrowdNext;
    if rs == [] {
      FirstSafe(m.order, k);
    } else {
      var before := rs[..|rs| - 1];
      RunSafe(m, k, before);
      RequestSafe(Served(m, before), k, CrowdOf(before, k), rs[|rs| - 1]);
    }
  }

  lemma FirstSafe(o: seq<u32>, k: u32)
    requires |o| > 0 && o[0] == k
    ensures Safe(o, k, Crowd({}, 0))
  {
    FindIs(o, k, 0);
  }

  /** No id is in two slots. */
  ghost predicate Once(o: seq<u32>)
  {
    forall i, j :: 0 <= i < j < |o| && o[i] != 0 ==> o[i] != o[j]
  }

  lemma FrontOnce(o: seq<u32>, id: u32)
    requires |o| > 0 && Once(o) && id != 0
    ensures Once(ToFront(o, id))
    ensures forall x: u32 | x != 0 :: x in ToFront(o, id) <==> x == id || (x in o && x != Victim(o, id))
  {
    hide ToFront;
    var r, q := ToFront(o, id), Place(o, id);
    forall i, j | 0 <= i < j < |r| && r[i] != 0 ensures r[i] != r[j] {
      FrontAt(o, id, i);
      FrontAt(o, id, j);
    }
    forall x: u32 | x != 0 ensures x in r <==> x == id || (x in o && x != Victim(o, id)) {
      FrontHas(o, id, x);
    }
  }

  lemma FrontHas(o: seq<u32>, id: u32, x: u32)
    requires |o| > 0 && Once(o) && id != 0 && x != 0
    ensures x in ToFront(o, id) <==> x == id || (x in o && x != Victim(o, id))
  {
    hide ToFront;
    var r, q := ToFront(o, id), Place(o, id);
    FrontAt(o, id, 0);
    if x in r && x != id {
      var i :| 0 <= i < |r| && r[i] == x;
      FrontAt(o, id, i);
    }
    if x in o && x != Victim(o, id) && x != id {
      var i :| 0 <= i < |o| && o[i] == x;
      FrontAt(o, id, i);
      assert r[if i < q then i + 1 else i] == x;
    }
  }

  lemma ErasedOnce(o: seq<u32>, id: u32)
    requires Once(o) && id != 0
    ensures Once(Erased(o, id))
    ensures forall x: u32 | x != 0 :: x in Erased(o, id) <==> x in o && x != id
  {
    var e := Erased(o, id);
    forall x: u32 | x != 0 && x in o && x != id ensures x in e {
      var i :| 0 <= i < |o| && o[i] == x;
      assert e[i] == x;
    }
  }

  ghost predicate Holds(o: seq<u32>, cached: map<u32, Entry>)
  {
    Once(o) && forall id: u32 :: id in cached <==> id != 0 && id in o
  }

  lemma FrontHolds(o: seq<u32>, a: Store, id: u32, e: Entry)
    requires |o| > 0 && Holds(o, a.cached) && id != 0
    ensures Holds(ToFront(o, id), Install(a, Victim(o, id), id, e).cached) && MayLeave(a, id, Victim(o, id))
  {
    hide ToFront, Once;
    FrontOnce(o, id);
  }

  /** A key that is in a slot moves to the front, and nothing leaves. */
  lemma FrontKeeps(o: seq<u32>, cached: map<u32, Entry>, id: u32)
    requires |o| > 0 && Holds(o, cached) && id in cached
    ensures Holds(ToFront(o, id), cached) && Victim(o, id) == 0
  {
    hide ToFront, Once;
    FrontOnce(o, id);
    FoundIn(o, id);
  }

  lemma FoundIn(o: seq<u32>, id: u32)
    ensures Find(o, id) < |o| <==> id in o
  {
  }

  lemma ErasedHolds(o: seq<u32>, cached: map<u32, Entry>, id: u32)
    requires Holds(o, cached) && id != 0
    ensures Holds(Erased(o, id), cached - {id})
  {
    hide Erased, Once;
    ErasedOnce(o, id);
  }

  lemma VictimLeaves(o: seq<u32>, a: Store, id: u32)
    requires |o| > 0 && Holds(o, a.cached)
    ensures MayLeave(a, id, Victim(o, id))
  {
    hide Once;
    FoundIn(o, id);
    assert o[|o| - 1] in o;
  }

  lemma StoredAside(a: Store, v: u32)
    ensures WriteBack(a, v).cached == a.cached
  {
  }

  /** Requests that only look, or give a slot up. */
  lemma LookHolds(m: Manager, r: Request)
    requires |m.order| > 0 && Holds(m.order, m.store.cached)
    requires r.DeleteKey? || r.UnloadKey? || r.SaveKey?
    ensures Holds(Next(m, r).order, Next(m, r).store.cached)
  {
    hide ToFront, Erased, Holds, Victim, WriteBack;
    StoredAside(m.store, FirstVictim(m, r));
    if r.id != 0 {
      StoredAside(m.store, r.id);
      ErasedHolds(m.order, m.store.cached, r.id);
      if r.id in m.store.cached { FrontKeeps(m.order, m.store.cached, r.id); }
    }
  }

  lemma ExportHolds(m: Manager, r: Request)
    requires |m.order| > 0 && Holds(m.order, m.store.cached) && r.ExportKey?
    ensures Holds(Next(m, r).order, Next(m, r).store.cached)
  {
    hide ToFront, Holds, Victim, WriteBack;
    var a := m.store;
    StoredAside(a, FirstVictim(m, r));
    if r.id in a.cached {
      if r.id != 0 { FrontKeeps(m.order, a.cached, r.id); }
    } else if r.id != 0 && r.id in a.stored {
      FrontHolds(m.order, a, r.id, a.stored[r.id]);
    }
  }

  lemma FillHolds(m: Manager, r: Request)
    requires |m.order| > 0 && Holds(m.order, m.store.cached) && (r.ImportKey? || r.GenerateKey? || r.LoadKey?)
    ensures Holds(Next(m, r).order, Next(m, r).store.cached)
  {
    hide ToFront, Holds, Victim, WriteBack;
    var a, v := m.store, FirstVictim(m, r);
    if Looks(a, r) {
      match r {
        case ImportKey(id, data, flags) =>
          FrontHolds(m.order, a, id, Entry(data, ImportFlags(SlotFlags(a, v, id), flags)));
        case GenerateKey(id, random) =>
          FrontHolds(m.order, a.(stored := a.stored[id := Entry(random, 0)]), id, Entry(random, 0));
        case LoadKey(id) =>
          FrontHolds(m.order, a, id, a.stored[id]);
      }
    }
  }

  lemma PairHolds(m: Manager, r: Request)
    requires |m.order| > 0 && Holds(m.order, m.store.cached) && r.GeneratePair? && WellFormed(r)
    ensures Holds(Next(m, r).order, Next(m, r).store.cached)
    ensures MayLeave(HalfPair(m.store, r, FirstVictim(m, r)), r.pub, SecondVictim(m, r))
  {
    hide ToFront, Holds, Victim, Install;
    if Answer(m.store, r) == 0 {
      var a := m.store;
      var b := a.(stored := a.stored[r.id := Entry(r.priv, LOCKED)][r.pub := Entry(r.point, 0)]);
      FrontHolds(m.order, b, r.id, Entry(r.priv, LOCKED));
      if 64 <= BUFSIZE {
        FrontHolds(Halfway(m, r), HalfPair(a, r, FirstVictim(m, r)), r.pub, Entry(r.point, 0));
      }
    }
  }

  /** The order and the slots stay in step, and the victims are ones that the two maps
      allow. */
  lemma NextHolds(m: Manager, r: Request)
    requires |m.order| > 0 && Holds(m.order, m.store.cached) && WellFormed(r)
    ensures Legal(m.store, r, FirstVictim(m, r), SecondVictim(m, r))
    ensures Holds(Next(m, r).order, Next(m, r).store.cached)
  {
    hide ToFront, Erased, Holds, Victim, Effect, Next, Answer, HalfPair;
    if !r.AllocKey? { VictimLeaves(m.order, m.store, r.id); }
    match r
    case AllocKey(_) => SameSlots(m, r);
    case ReserveKey(_) => SameSlots(m, r);
    case ImportKey(_, _, _) => FillHolds(m, r);
    case GenerateKey(_, _) => FillHolds(m, r);
    case LoadKey(_) => FillHolds(m, r);
    case GeneratePair(_, _, _, _, _) => PairHolds(m, r);
    case ExportKey(_, _) => ExportHolds(m, r);
    case DeleteKey(_) => LookHolds(m, r);
    case SaveKey(_) => LookHolds(m, r);
    case UnloadKey(_) => LookHolds(m, r);
  }

  lemma SameSlots(m: Manager, r: Request)
    requires |m.order| > 0 && (r.AllocKey? || r.ReserveKey?)
    ensures Next(m, r).order == m.order && Next(m, r).store.cached == m.store.cached
  {
  }

  lemma {:induction false} ServedHolds(m: Manager, rs: seq<Request>)
    requires |m.order| > 0 && Holds(m.order, m.store.cached) && forall i :: 0 <= i < |rs| ==> WellFormed(rs[i])
    ensures Holds(Served(m, rs).order, Served(m, rs).store.cached)
  {
    hide Holds, Next, WellFormed;
    if rs != [] {
      ServedHolds(m, rs[..|rs| - 1]);
      NextHolds(Served(m, rs[..|rs| - 1]), rs[|rs| - 1]);
    }
  }

  /** A key that was just used, and is not deleted or unloaded, keeps its slot as long as
      the crowd is smaller than the number of slots; it can then be saved and unloaded if
      it is not empty. */
  lemma StaysCached(m: Manager, k: u32, rs: seq<Request>)
    requires |m.order| > 0 && Holds(m.order, m.store.cached) && forall i :: 0 <= i < |rs| ==> WellFormed(rs[i])
    requires k != 0 && m.order[0] == k && CrowdOf(rs, k).count < |m.order|
    requires DeleteKey(k) !in rs && UnloadKey(k) !in rs
    ensures var a := Served(m, rs).store;
            k in a.cached && (a.cached[k].data != [] ==> Answer(a, SaveKey(k)) == 0 && Answer(a, UnloadKey(k)) == 0)
  {
    hide Served, WellFormed, CrowdOf, Once;
    ServedHolds(m, rs);
    RunSafe(m, k, rs);
    FoundIn(Served(m, rs).order, k);
  }

  /** What counts as use: a request for one key that succeeds and leaves the key in a slot
      puts it first in line, unless the key is too long to be put into the slot. */
  lemma UsedFirst(m: Manager, r: Request)
    requires |m.order| > 0 && Answer(m.store, r) >= 0
    requires r.ImportKey? || r.ExportKey? || r.GenerateKey? || r.SaveKey? || r.LoadKey?
    requires (r.ImportKey? ==> |r.data| <= BUFSIZE) && (r.GenerateKey? ==> |r.random| <= BUFSIZE)
    ensures r.id in Next(m, r).store.cached ==> Next(m, r).order[0] == r.id
  {
  }

  lemma ImportFirst(m: Manager, r: Request)
    requires |m.order| > 0 && r.ImportKey? && r.id != 0 && |r.data| <= BUFSIZE
    ensures Next(m, r).order[0] == r.id
  {
    UsedFirst(m, r);
  }

  /** A request that fails moves nothing. */
  lemma FailedStays(m: Manager, r: Request)
    requires |m.order| > 0 && Answer(m.store, r) < 0 && !r.DeleteKey?
    ensures Next(m, r).order == m.order && Next(m, r).store.cached == m.store.cached
  {
  }

  /** The other ids that a request is for. */
  function Mentioned(r: Request, k: u32): (s: set<u32>)
  {
    ((if r.AllocKey? then {} else {r.id}) + (if r.GeneratePair? then {r.pub} else {})) - {0, k}
  }

  function Others(rs: seq<Request>, k: u32): (s: set<u32>)
  {
    if rs == [] then {} else Others(rs[..|rs| - 1], k) + Mentioned(rs[|rs| - 1], k)
  }

  /** The requests that give a slot up. */
  function GivenUp(rs: seq<Request>): (n: nat)
  {
    if rs == [] then 0
    else GivenUp(rs[..|rs| - 1]) + if rs[|rs| - 1].DeleteKey? || rs[|rs| - 1].UnloadKey? then 1 else 0
  }

  lemma JoinedCount(c: Crowd, j: u32, k: u32)
    ensures Joined(c, j, k).count - |Joined(c, j, k).ids| == c.count - |c.ids|
    ensures Joined(c, j, k).ids <= c.ids + ({j} - {0, k})
  {
  }

  lemma PartedCount(c: Crowd, j: u32)
    ensures Parted(c, j).count - |Parted(c, j).ids| <= c.count - |c.ids| + 1
    ensures Parted(c, j).ids <= c.ids
  {
    if j in c.ids { assert c.ids == (c.ids - {j}) + {j}; } else { assert c.ids - {j} == c.ids; }
  }

  lemma CrowdStep(c: Crowd, r: Request, k: u32)
    ensures CrowdNext(c, r, k).ids <= c.ids + Mentioned(r, k)
    ensures CrowdNext(c, r, k).count - |CrowdNext(c, r, k).ids|
         <= c.count - |c.ids| + if r.DeleteKey? || r.UnloadKey? then 1 else 0
  {
    hide Joined, Parted;
    if r.GeneratePair? {
      JoinedCount(c, r.id, k);
      JoinedCount(Joined(c, r.id, k), r.pub, k);
    } else if r.DeleteKey? || r.UnloadKey? {
      PartedCount(c, r.id);
    } else if !r.AllocKey? && !r.ReserveKey? {
      JoinedCount(c, r.id, k);
    }
  }

  /** The crowd is at most the number of other ids that were requested and of requests
      that gave a slot up. */
  lemma CrowdBound(rs: seq<Request>, k: u32)
    ensures CrowdOf(rs, k).count <= |Others(rs, k)| + GivenUp(rs)
  {
    CrowdCount(rs, k);
    Smaller(CrowdOf(rs, k).ids, Others(rs, k));
  }

  lemma {:induction false} CrowdCount(rs: seq<Request>, k: u32)
    ensures CrowdOf(rs, k).ids <= Others(rs, k)
    ensures CrowdOf(rs, k).count <= |CrowdOf(rs, k).ids| + GivenUp(rs)
  {
    hide CrowdNext, Mentioned;
    if rs != [] {
      CrowdCount(rs[..|rs| - 1], k);
      CrowdStep(CrowdOf(rs[..|rs| - 1], k), rs[|rs| - 1], k);
    }
  }

  /** Runs of imports that fit a slot, and deletes, of other keys than k. */
  ghost predicate Plain(r: Request, k: u32)
  {
    || (r.ImportKey? && r.id !in {0, k} && |r.data| <= BUFSIZE)
    || (r.DeleteKey? && r.id !in {0, k})
  }

  /** k has the crowd, and nothing else, in front of it; or it has lost its slot. */
  ghost predicate Counted(o: seq<u32>, k: u32, c: Crowd)
  {
    && 0 !in c.ids && k !in c.ids
    && if c.count < |o| then Find(o, k) == c.count && c.ids == Ahead(o, k) - {0} else k !in o
  }

  lemma ImportCounted(o: seq<u32>, k: u32, c: Crowd, j: u32)
    requires |o| > 0 && Once(o) && k != 0 && j !in {0, k} && Counted(o, k, c)
    ensures Counted(ToFront(o, j), k, Joined(c, j, k))
  {
    hide Find, ToFront, Ahead, Once;
    FrontOnce(o, j);
    if c.count < |o| {
      var d, a := Joined(c, j, k), Ahead(o, k);
      if Find(o, j) < Find(o, k) {
        FrontWithin(o, j, k);
        InAhead(o, j, k);
      } else {
        NotAhead(o, j, k);
        if c.count < |o| - 1 {
          FrontPast(o, j, k);
        } else {
          LastLeaves(o, k, j);
        }
      }
    }
  }

  lemma LastLeaves(o: seq<u32>, k: u32, j: u32)
    requires |o| > 0 && Find(o, k) == |o| - 1 < Find(o, j) && Once(o) && k != 0 && j !in {0, k}
    ensures k !in ToFront(o, j)
  {
    hide ToFront, Once;
    FrontOnce(o, j);
  }

  lemma DeleteCounted(o: seq<u32>, k: u32, c: Crowd, j: u32)
    requires Once(o) && k != 0 && j !in {0, k} && Counted(o, k, c)
    ensures Counted(Erased(o, j), k, Parted(c, j))
  {
    hide Find, Erased, Ahead, Once;
    ErasedOnce(o, j);
    if c.count < |o| {
      ErasedAhead(o, k, j);
      ErasedExact(o, k, j);
    }
  }

  lemma ErasedExact(o: seq<u32>, k: u32, j: u32)
    requires j !in {0, k} && k != 0 && Find(o, k) < |o| && Find(Erased(o, j), k) == Find(o, k) && Once(o)
    ensures Ahead(Erased(o, j), k) <= Ahead(o, k) + {0} && j !in Ahead(Erased(o, j), k)
  {
    var e := Erased(o, j);
    assert forall i :: 0 <= i < |o| ==> e[i] == o[i] || e[i] == 0;
    ErasedOnce(o, j);
  }

  lemma {:induction false} PlainRun(m: Manager, k: u32, rs: seq<Request>)
    requires |m.order| > 0 && Holds(m.order, m.store.cached) && k != 0 && m.order[0] == k
    requires forall i :: 0 <= i < |rs| ==> Plain(rs[i], k)
    ensures Holds(Served(m, rs).order, Served(m, rs).store.cached) && Counted(Served(m, rs).order, k, CrowdOf(rs, k))
  {
    hide Counted, ToFront, Erased, Effect, Once;
    if rs == [] {
      FirstCounted(m.order, k);
    } else {
      var before, r := rs[..|rs| - 1], rs[|rs| - 1];
      PlainRun(m, k, before);
      var n := Served(m, before);
      NextHolds(n, r);
      if r.ImportKey? {
        ImportCounted(n.order, k, CrowdOf(before, k), r.id);
      } else {
        DeleteCounted(n.order, k, CrowdOf(before, k), r.id);
      }
    }
  }

  lemma FirstCounted(o: seq<u32>, k: u32)
    requires |o| > 0 && o[0] == k
    ensures Counted(o, k, Crowd({}, 0))
  {
    FindIs(o, k, 0);
  }

  /** For runs of imports and deletes of other keys the crowd decides: a key keeps its slot
      if and only if the crowd is smaller than the number of slots. */
  lemma StaysExactly(m: Manager, k: u32, rs: seq<Request>)
    requires |m.order| > 0 && Holds(m.order, m.store.cached) && k != 0 && m.order[0] == k
    requires forall i :: 0 <= i < |rs| ==> Plain(rs[i], k)
    ensures k in Served(m, rs).store.cached <==> CrowdOf(rs, k).count < |m.order|
  {
    hide Served, CrowdOf, Plain, Once, Ahead;
    PlainRun(m, k, rs);
    FoundIn(Served(m, rs).order, k);
  }

  /** One other key, imported and deleted n times. */
  function Again(j: u32, data: seq<byte>, n: nat): (rs: seq<Request>)
  {
    if n == 0 then [] else Again(j, data, n - 1) + [ImportKey(j, data, 0), DeleteKey(j)]
  }

  lemma CrowdAppend(rs: seq<Request>, r: Request, k: u32)
    ensures CrowdOf(rs + [r], k) == CrowdNext(CrowdOf(rs, k), r, k)
  {
    assert (rs + [r])[..|rs|] == rs;
  }

  lemma {:induction false} AgainCrowd(j: u32, data: seq<byte>, n: nat, k: u32)
    requires j !in {0, k} && |data| <= BUFSIZE
    ensures CrowdOf(Again(j, data, n), k) == Crowd({}, n)
    ensures forall i :: 0 <= i < |Again(j, data, n)| ==> Plain(Again(j, data, n)[i], k)
  {
    if n != 0 {
      hide CrowdOf;
      AgainCrowd(j, data, n - 1, k);
      var a, i, d := Again(j, data, n - 1), ImportKey(j, data, 0), DeleteKey(j);
      CrowdAppend(a, i, k);
      CrowdAppend(a + [i], d, k);
      assert a + [i, d] == a + [i] + [d];
      assert {j} - {j} == {};
    }
  }

  /** A slot that a delete frees is not taken before its turn: one other key, imported and
      deleted as often as there are slots, drives a key out while every other slot is
      free. */
  lemma FreeSlotsWait(m: Manager, k: u32, j: u32, data: seq<byte>)
    requires |m.order| > 0 && Holds(m.order, m.store.cached) && k != 0 && m.order[0] == k
    requires j !in {0, k} && |data| <= BUFSIZE
    ensures k !in Served(m, Again(j, data, |m.order|)).store.cached
  {
    hide Served;
    AgainCrowd(j, data, |m.order|, k);
    StaysExactly(m, k, Again(j, data, |m.order|));
  }

  lemma {:induction false} ServedParts(m: Manager, a: seq<Request>, b: seq<Request>)
    requires |m.order| > 0
    ensures Served(m, a + b) == Served(Served(m, a), b)
    decreases |b|
  {
    hide Next;
    if b == [] {
      assert a + b == a;
    } else {
      ServedParts(m, a, b[..|b| - 1]);
      assert (a + b)[..|a + b| - 1] == a + b[..|b| - 1];
    }
  }

  /** Request n imports a key that gets a slot, nothing gives that slot up afterwards, and
      too few other ids are requested to take it. */
  ghost predicate Undisturbed(rs: seq<Request>, n: nat, slots: nat)
    requires n < |rs|
  {
    && rs[n].ImportKey? && rs[n].id != 0 && |rs[n].data| <= BUFSIZE
    && DeleteKey(rs[n].id) !in rs[n + 1..] && UnloadKey(rs[n].id) !in rs[n + 1..]
    && |Others(rs[n + 1..], rs[n].id)| + GivenUp(rs[n + 1..]) < slots
  }

  /** Over every run: an imported key is in its slot, and answers to save and unload, until
      it is deleted or unloaded or enough others were requested. */
  lemma ImportStays(m: Manager, rs: seq<Request>, n: nat)
    requires |m.order| > 0 && Holds(m.order, m.store.cached) && forall i :: 0 <= i < |rs| ==> WellFormed(rs[i])
    requires n < |rs| && Undisturbed(rs, n, |m.order|)
    ensures var a, k := Served(m, rs).store, rs[n].id;
            k in a.cached && (a.cached[k].data != [] ==> Answer(a, SaveKey(k)) == 0 && Answer(a, UnloadKey(k)) == 0)
  {
    hide Served, WellFormed, CrowdOf, Others, GivenUp, Holds, Next, Effect, Answer;
    var a, r, b := rs[..n], rs[n], rs[n + 1..];
    assert rs == a + [r] + b;
    ServedHolds(m, a);
    var p := Served(m, a);
    assert Served(p, [r]) == Next(p, r) by { ServedOne(p, r); }
    ServedParts(m, a, [r]);
    ServedParts(m, a + [r], b);
    NextHolds(p, r);
    ImportFirst(p, r);
    CrowdBound(b, r.id);
    StaysCached(Next(p, r), r.id, b);
  }

  lemma ServedOne(m: Manager, r: Request)
    requires |m.order| > 0
    ensures Served(m, [r]) == Next(m, r)
  {
    hide Next;
    assert [r][..0] == [];
    assert Served(m, []) == m;
  }
}
