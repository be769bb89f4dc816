/**
 Loading under any bucketing (Unserialize of src/addrman.h): when the manager that a
 stream gives is consistent. A stream of distinct addresses gives one whatever asmap is
 in use, and an entry is lost only to a slot that another one has taken.
 */
module AddrReload {
  import opened AddrTypes
  import opened AddrState
  import opened AddrStore

  /** The entries of a stream, new ones first. */
  function Entries(st: Stored): seq<Record> { st.newInfos + st.triedInfos }

  predicate TimelyRecord(r: Record, tried: bool) {
    0 <= r.lastTry && 0 <= r.lastSuccess && (tried ==> r.lastSuccess != 0)
  }

  /** A stream such as Serialize writes: true counts, distinct addresses, sane times. */
  ghost predicate Sound(st: Stored) {
    && Complete(st) && 0 <= st.nTried && st.key != 0
    && (forall i, j | 0 <= i < j < |Entries(st)| :: Entries(st)[i].svc.net != Entries(st)[j].svc.net)
    && (forall i | 0 <= i < |Entries(st)| :: TimelyRecord(Entries(st)[i], |st.newInfos| <= i))
  }

  // -------------------------------------------------------------- where entries come from

  /** An entry is the j-th of the stream. */
  predicate IsEntry(st: Stored, i: Info, j: nat) {
    j < |Entries(st)| && i.rec == Entries(st)[j] && (i.inTried <==> |st.newInfos| <= j) && i.refCount == 0
  }

  ghost predicate Comes(st: Stored, info: Infos, m: nat) {
    forall k | k in info :: exists j | 0 <= j < m :: IsEntry(st, info[k], j)
  }

  /** The address of every entry leads to an entry with that address, not always the same one. */
  ghost predicate Leads(info: Infos, addrs: map<NetAddr, int>) {
    && (forall id | id in info :: info[id].rec.svc.net in addrs)
    && (forall a | a in addrs :: addrs[a] in info && info[addrs[a]].rec.svc.net == a)
  }

  lemma LeadsNext(info: Infos, addrs: map<NetAddr, int>, id: int, i: Info)
    requires Leads(info, addrs) && id !in info
    ensures Leads(info[id := i], addrs[i.rec.svc.net := id])
  {}

  /** The state of loading after the first m entries, of which some tried ones are lost. */
  ghost predicate CoreOk(g: Geometry, st: Stored, c: Core, m: nat) {
    && Leads(c.info, c.addrs) && RandomOk(c.info, c.random) && TriedOk(g, c.info, c.tried)
    && m <= |Entries(st)| && Comes(st, c.info, m)
    && (forall k :: k in c.info <==> 0 <= k < c.ids)
    && (forall k | k in c.info :: c.info[k].inTried <==> |st.newInfos| <= k)
    && c.ids + c.lost == m
  }

  lemma FreshAddress(st: Stored, info: Infos, addrs: map<NetAddr, int>, m: nat)
    requires Sound(st) && Comes(st, info, m) && AddrsOk(info, addrs) && m < |Entries(st)|
    ensures Entries(st)[m].svc.net !in addrs
  {
    hide Entries, Complete;
    forall id | id in info ensures info[id].rec.svc.net != Entries(st)[m].svc.net {
      var j :| 0 <= j < m && IsEntry(st, info[id], j);
    }
  }

  lemma ComesNext(st: Stored, info: Infos, m: nat, id: int, i: Info)
    requires Comes(st, info, m) && IsEntry(st, i, m)
    ensures Comes(st, info[id := i], m + 1)
  {
    hide IsEntry;
    var next := info[id := i];
    forall k | k in next ensures exists j | 0 <= j < m + 1 :: IsEntry(st, next[k], j) {
      if k == id {
        assert IsEntry(st, i, m);
      } else {
        var j :| 0 <= j < m && IsEntry(st, info[k], j);
        assert IsEntry(st, info[k], j);
      }
    }
  }

  lemma ComesMore(st: Stored, info: Infos, m: nat)
    requires Comes(st, info, m)
    ensures Comes(st, info, m + 1)
  {
    hide IsEntry;
    forall k | k in info ensures exists j | 0 <= j < m + 1 :: IsEntry(st, info[k], j) {
      var j :| 0 <= j < m && IsEntry(st, info[k], j);
      assert IsEntry(st, info[k], j);
    }
  }

  lemma {:induction false} NewLoads(g: Geometry, st: Stored, n: nat)
    requires n <= |st.newInfos|
    ensures CoreOk(g, st, LoadNew(st.newInfos, n), n)
    ensures LoadNew(st.newInfos, n).tried == map[]
    ensures Sound(st) ==> AddrsOk(LoadNew(st.newInfos, n).info, LoadNew(st.newInfos, n).addrs)
  {
    hide Sound, AddrsOk, Leads, RandomOk, TriedOk, Comes, IsEntry, Entries;
    EntryAt(st, n);
    if n == 0 {
      NothingLoaded(g, st);
    } else {
      NewLoads(g, st, n - 1);
      var c := LoadNew(st.newInfos, n - 1);
      var i := Info(st.newInfos[n - 1], 0, false, |c.random|);
      EntryAt(st, n - 1);
      if Sound(st) {
        FreshAddress(st, c.info, c.addrs, n - 1);
        CreateAddrs(c.info, c.addrs, n - 1, i);
      }
      LeadsNext(c.info, c.addrs, n - 1, i);
      CreateRandom(c.info, c.random, n - 1, i);
      CreateTried(g, c.info, c.tried, n - 1, i);
      ComesNext(st, c.info, n - 1, n - 1, i);
    }
  }

  lemma NothingLoaded(g: Geometry, st: Stored)
    ensures CoreOk(g, st, LoadNew(st.newInfos, 0), 0)
    ensures AddrsOk(LoadNew(st.newInfos, 0).info, LoadNew(st.newInfos, 0).addrs)
  {}

  lemma EntryAt(st: Stored, n: nat)
    ensures |Entries(st)| == |st.newInfos| + |st.triedInfos|
    ensures n < |st.newInfos| ==> Entries(st)[n] == st.newInfos[n] && forall pos ::
        IsEntry(st, Info(st.newInfos[n], 0, false, pos), n)
    ensures n < |st.triedInfos| ==> var m := |st.newInfos| + n;
      Entries(st)[m] == st.triedInfos[n] && forall pos :: IsEntry(st, Info(st.triedInfos[n], 0, true, pos), m)
  {}

  /** One tried entry: it gets its slot and the next id, or is lost because the slot is taken. */
  lemma TriedLoads(g: Geometry, st: Stored, c: Core, n: nat)
    requires n < |st.triedInfos| && CoreOk(g, st, c, |st.newInfos| + n) && |st.newInfos| <= c.ids
    ensures var d := AddTried(g, c, st.triedInfos[n]);
      && CoreOk(g, st, d, |st.newInfos| + n + 1) && c.ids <= d.ids
      && g.TriedSlot(st.triedInfos[n].svc) in d.tried && c.tried.Keys <= d.tried.Keys
      && (Sound(st) && AddrsOk(c.info, c.addrs) ==> AddrsOk(d.info, d.addrs))
  {
    hide Sound, AddrsOk, Leads, RandomOk, TriedOk, Comes, IsEntry, Entries;
    var m, r := |st.newInfos| + n, st.triedInfos[n];
    EntryAt(st, n);
    if g.TriedSlot(r.svc) in c.tried {
      ComesMore(st, c.info, m);
    } else {
      var i := Info(r, 0, true, |c.random|);
      if Sound(st) && AddrsOk(c.info, c.addrs) {
        FreshAddress(st, c.info, c.addrs, m);
        CreateAddrs(c.info, c.addrs, c.ids, i);
      }
      LeadsNext(c.info, c.addrs, c.ids, i);
      CreateRandom(c.info, c.random, c.ids, i);
      TriedNext(g, c.info, c.tried, c.ids, i);
      ComesNext(st, c.info, m, c.ids, i);
    }
  }

  lemma {:induction false} AllTriedLoads(g: Geometry, st: Stored, c: Core, n: nat)
    requires n <= |st.triedInfos| && CoreOk(g, st, c, |st.newInfos|) && c.ids == |st.newInfos|
    ensures var d := LoadTried(g, c, st.triedInfos, n);
      && CoreOk(g, st, d, |st.newInfos| + n) && c.ids <= d.ids
      && (forall k | 0 <= k < n :: g.TriedSlot(st.triedInfos[k].svc) in d.tried)
      && (Sound(st) && AddrsOk(c.info, c.addrs) ==> AddrsOk(d.info, d.addrs))
  {
    hide CoreOk, Sound, AddrsOk;
    if n > 0 {
      AllTriedLoads(g, st, c, n - 1);
      TriedLoads(g, st, LoadTried(g, c, st.triedInfos, n - 1), n - 1);
    }
  }

  lemma LoadedOk(g: Geometry, st: Stored)
    requires Complete(st)
    ensures var c := Loaded(g, st);
      && CoreOk(g, st, c, |Entries(st)|) && |st.newInfos| <= c.ids
      && (forall k | 0 <= k < |st.triedInfos| :: g.TriedSlot(st.triedInfos[k].svc) in c.tried)
      && (Sound(st) ==> AddrsOk(c.info, c.addrs))
  {
    hide CoreOk, LoadNew, LoadTried, AddrsOk, Sound;
    NewLoads(g, st, |st.newInfos|);
    AllTriedLoads(g, st, LoadNew(st.newInfos, |st.newInfos|), |st.triedInfos|);
  }

  // ----------------------------------------------------------------- filling the new table

  /** The manager with another shelf. */
  function Under(s: State, h: Shelf): State { s.(info := h.info, newTable := h.table) }

  /** The conditions of Check_ that do not look at addresses or times. */
  ghost predicate Tabled(g: Geometry, s: State, zero: set<int>) {
    && IdsOk(s.info, s.idCount) && RandomOk(s.info, s.random) && TriedOk(g, s.info, s.triedTable)
    && NewSlotsOk(g, s.info, s.newTable) && RefsOk(s.info, s.newTable, zero)
    && CountsOk(s.info, s.nTried, s.nNew, 0)
  }

  /** A new table that is empty: every new entry still waits for a reference. */
  lemma Unshelved(g: Geometry, st: Stored, collisions: set<int>)
    requires Complete(st) && 0 <= st.nTried
    ensures var c := Loaded(g, st);
      Tabled(g, State(st.key, c.ids, c.info, c.addrs, c.random, c.tried, st.nTried - c.lost, map[], st.nNew, 1,
          collisions), NewIds(c.info))
  {
    hide Leads, RandomOk, TriedOk, Loaded;
    LoadedOk(g, st);
    var c := Loaded(g, st);
    LoadedCounts(g, st, c);
    forall id | id in c.info ensures c.info[id].refCount == 0 && RefSlots(map[], id) == {} {
      var j :| 0 <= j < |Entries(st)| && IsEntry(st, c.info[id], j);
    }
  }

  lemma LoadedCounts(g: Geometry, st: Stored, c: Core)
    requires Complete(st) && 0 <= st.nTried && CoreOk(g, st, c, |Entries(st)|) && |st.newInfos| <= c.ids
    ensures CountsOk(c.info, st.nTried - c.lost, st.nNew, 0)
  {
    hide Leads, RandomOk, TriedOk, Comes;
    var n, m := |st.newInfos|, c.ids - |st.newInfos|;
    NumbersCount(0, n);
    NumbersCount(n, m);
    forall k ensures k in NewIds(c.info) <==> k in Numbers(0, n) {
      if 0 <= k < n { assert Numbers(0, n)[k] == k; }
    }
    forall k ensures k in TriedIds(c.info) <==> k in Numbers(n, m) {
      if n <= k < n + m { assert Numbers(n, m)[k - n] == k; }
    }
    assert NewIds(c.info) == Elements(Numbers(0, n));
    assert TriedIds(c.info) == Elements(Numbers(n, m));
  }

  /** An entry has a reference, or its own slot is taken. */
  predicate Served(g: Geometry, h: Shelf, k: int) {
    k in h.info && (h.info[k].refCount != 0 || g.NewSlot(h.info[k].rec.svc, h.info[k].rec.source) in h.table)
  }

  lemma ReferenceTabled(g: Geometry, s: State, id: int, sl: Slot, zero: set<int>)
    requires Tabled(g, s, zero) && sl !in s.newTable && id in s.info && !s.info[id].inTried
    requires s.info[id].refCount < NEW_BUCKETS_PER_ADDRESS
    requires sl.bucket < g.newBuckets && sl.pos == g.position(s.info[id].rec.svc, true, sl.bucket)
    ensures Tabled(g, Reference(s, id, sl), zero)
  {
    hide RandomOk, TriedOk, NewSlotsOk, RefsOk;
    var i := s.info[id].(refCount := s.info[id].refCount + 1);
    ReferenceRefs(s.info, s.newTable, id, sl, zero);
    FewerZeros(s.info[id := i], s.newTable[sl := id], zero, id);
    CountRandom(s.info, id, i.refCount, s.random);
    TweakTried(g, s.info, s.triedTable, id, i);
    ReferenceNewSlots(g, s.info, s.newTable, id, sl);
    TweakNewSlots(g, s.info, s.newTable[sl := id], id, i);
    SameIdSets(s.info[id := i], s.info);
  }

  lemma FewerZeros(info: Infos, table: map<Slot, int>, zero: set<int>, id: int)
    requires RefsOk(info, table, zero - {id})
    ensures RefsOk(info, table, zero)
  {}

  lemma PlaceServes(g: Geometry, usable: bool, bucket: nat, s: State, h: Shelf, n: int, zero: set<int>)
    requires Tabled(g, Under(s, h), zero) && g.InRange() && (usable ==> bucket < g.newBuckets)
    requires n in h.info && !h.info[n].inTried && h.info[n].refCount == 0
    ensures var r := Place(g, usable, bucket, h, n); Tabled(g, Under(s, r), zero) && Served(g, r, n)
  {
    hide Tabled;
    var svc := h.info[n].rec.svc;
    var was, home := Slot(bucket, g.position(svc, true, bucket)), g.NewSlot(svc, h.info[n].rec.source);
    if usable && was !in h.table {
      ReferenceTabled(g, Under(s, h), n, was, zero);
    } else if home !in h.table {
      ReferenceTabled(g, Under(s, h), n, home, zero);
    }
  }

  /** Entries from n on still wait. */
  ghost predicate Waiting(info: Infos, n: nat, count: nat) {
    forall k | n <= k < count :: k in info && !info[k].inTried && info[k].refCount == 0
  }

  lemma PlaceOthers(g: Geometry, usable: bool, bucket: nat, h: Shelf, n: nat, count: nat)
    requires n < count && Waiting(h.info, n, count)
    requires forall k | 0 <= k < n :: Served(g, h, k)
    ensures var r := Place(g, usable, bucket, h, n);
      && Waiting(r.info, n + 1, count) && SameRecords(r.info, h.info) && forall k | 0 <= k < n :: Served(g, r, k)
  {
    var r := Place(g, usable, bucket, h, n);
    forall k | 0 <= k < n ensures Served(g, r, k) { assert Served(g, h, k); }
  }

  lemma {:induction false} AllServed(g: Geometry, usable: bool, m: map<int, nat>, s: State, h: Shelf, n: nat,
      count: nat, zero: set<int>)
    requires n <= count && Waiting(h.info, 0, count) && Tabled(g, Under(s, h), zero) && g.InRange()
    requires usable ==> ValuesBelow(m, g.newBuckets)
    ensures var r := PlaceAll(g, usable, m, h, n);
      && Tabled(g, Under(s, r), zero) && Waiting(r.info, n, count) && SameRecords(r.info, h.info)
      && forall k | 0 <= k < n :: Served(g, r, k)
  {
    hide Tabled, Waiting, Served, Place, SameRecords;
    WaitingHas(h.info, 0, count);
    SameSelf(h.info);
    if n > 0 {
      AllServed(g, usable, m, s, h, n - 1, count, zero);
      var h', bucket := PlaceAll(g, usable, m, h, n - 1), NotedBucket(m, n - 1);
      WaitingHas(h'.info, n - 1, count);
      SomeBucket(g);
      PlaceServes(g, usable, bucket, s, h', n - 1, zero);
      PlaceOthers(g, usable, bucket, h', n - 1, count);
      SameTrans(Place(g, usable, bucket, h', n - 1).info, h'.info, h.info);
    }
  }

  lemma WaitingHas(info: Infos, n: nat, count: nat)
    requires Waiting(info, n, count)
    ensures forall k | n <= k < count :: k in info && !info[k].inTried && info[k].refCount == 0
  {}

  lemma SomeBucket(g: Geometry)
    requires g.InRange()
    ensures 0 < g.newBuckets
  {
    var a := NetAddr(0, []);
    assert g.newBucket(a, a) < g.newBuckets;
  }

  // -------------------------------------------------------------------------- pruning

  /** An address goes with any entry that has it. */
  ghost predicate Delisted(s: State, t: State) {
    forall a :: a in t.addrs <==>
      a in s.addrs && forall k | k in s.info && k !in t.info :: s.info[k].rec.svc.net != a
  }

  /** Entries that are left, unchanged but for their place in vRandom; only unreferenced ones are gone. */
  ghost predicate Pruned(s: State, t: State) {
    && t.newTable == s.newTable && t.triedTable == s.triedTable && t.idCount == s.idCount
    && t.nTried == s.nTried && t.key == s.key
    && (forall k | k in t.info :: k in s.info && Alike(t.info[k], s.info[k]))
    && (forall k | k in s.info && !Stray(s.info, k) :: k in t.info)
    && Delisted(s, t) && (forall a | a in t.addrs :: t.addrs[a] == s.addrs[a])
  }

  lemma PrunedSelf(s: State)
    ensures Pruned(s, s)
  {}

  lemma PrunedOne(s: State, t: State, u: State, id: int)
    requires AllAlike(t.info, s.info - {id}) && Stray(s.info, id) && Pruned(t, u)
    requires t.newTable == s.newTable && t.triedTable == s.triedTable && t.idCount == s.idCount
    requires t.nTried == s.nTried && t.key == s.key && t.addrs == s.addrs - {s.info[id].rec.svc.net}
    ensures Pruned(s, u)
  {
    hide Delisted;
    forall k | k in u.info ensures k in s.info && Alike(u.info[k], s.info[k]) {
      assert k in t.info && Alike(u.info[k], t.info[k]);
      assert Alike(t.info[k], (s.info - {id})[k]);
    }
    forall k | k in s.info && !Stray(s.info, k) ensures k in u.info {
      assert k in t.info && Alike(t.info[k], (s.info - {id})[k]);
    }
    DelistedOne(s, t, u, id);
    DelistedKept(t, u);
  }

  lemma DelistedKept(s: State, t: State)
    requires Delisted(s, t)
    ensures forall a | a in t.addrs :: a in s.addrs
  {}

  lemma DelistedOne(s: State, t: State, u: State, id: int)
    requires AllAlike(t.info, s.info - {id}) && id in s.info && Delisted(t, u)
    requires t.addrs == s.addrs - {s.info[id].rec.svc.net} && forall k | k in u.info :: k in t.info
    ensures Delisted(s, u)
  {
    forall a ensures a in u.addrs <==>
        a in s.addrs && forall k | k in s.info && k !in u.info :: s.info[k].rec.svc.net != a
    {
      forall k | k in t.info ensures k in s.info && k != id && t.info[k].rec == s.info[k].rec {
        assert Alike(t.info[k], (s.info - {id})[k]);
      }
    }
  }

  lemma DeleteEffect(s: State, id: int)
    requires RandomOk(s.info, s.random) && Stray(s.info, id)
    ensures CanDelete(s, id) && RandomOk(Delete(s, id).info, Delete(s, id).random)
    ensures var t := Delete(s, id);
      && AllAlike(t.info, s.info - {id}) && t.newTable == s.newTable && t.triedTable == s.triedTable
      && t.idCount == s.idCount && t.nTried == s.nTried && t.key == s.key && t.nNew == s.nNew - 1
      && t.addrs == s.addrs - {s.info[id].rec.svc.net}
  {
    hide RandomOk, SwapInfos, SwapOrder;
    DeleteRandom(s, id);
    RandomPlace(s.info, s.random, id);
    SwapOk(s.info, s.random, s.info[id].randomPos, |s.random| - 1);
  }

  lemma RandomPlace(info: Infos, random: seq<int>, id: int)
    requires RandomOk(info, random) && id in info
    ensures 0 <= info[id].randomPos < |random|
  {}

  lemma DeleteTabled(g: Geometry, s: State, id: int, zero: set<int>)
    requires Tabled(g, s, zero) && Stray(s.info, id)
    ensures CanDelete(s, id) && Tabled(g, Delete(s, id), zero)
  {
    hide RandomOk, TriedOk, NewSlotsOk, RefsOk, Delete;
    DeleteEffect(s, id);
    var t := Delete(s, id);
    RemoveNew(g, s.info, s.newTable, id, zero);
    RemoveTried(g, s.info, s.triedTable, id);
    RemoveCounts(s.info, id);
    AlikeTried(g, t.info, s.info - {id}, s.triedTable);
    AlikeNew(g, t.info, s.info - {id}, s.newTable, zero - {id});
    FewerZeros(t.info, t.newTable, zero, id);
    SameIdSets(t.info, s.info - {id});
  }

  lemma {:induction false} PruneEffect(s: State, k: nat, n: nat)
    requires RandomOk(s.info, s.random)
    requires forall j | 0 <= j < k :: !Stray(s.info, j)
    ensures var t := Prune(s, k, n); Pruned(s, t) && forall j | 0 <= j < n || 0 <= j < k :: !Stray(t.info, j)
    decreases n - k
  {
    hide RandomOk, Delete, Pruned;
    PrunedSelf(s);
    if k < n {
      if Stray(s.info, k) {
        DeleteRandom(s, k);
        DeleteEffect(s, k);
        var t := Delete(s, k);
        StrayAfter(s.info, t.info, k);
        PruneEffect(t, k + 1, n);
        PrunedOne(s, t, Prune(t, k + 1, n), k);
      } else {
        PruneEffect(s, k + 1, n);
      }
    }
  }

  lemma {:induction false} PruneTabled(g: Geometry, s: State, k: nat, n: nat, zero: set<int>)
    requires Tabled(g, s, zero) && RandomOk(s.info, s.random)
    ensures Tabled(g, Prune(s, k, n), zero)
    decreases n - k
  {
    hide Tabled, RandomOk, Delete;
    if k < n {
      if Stray(s.info, k) {
        DeleteRandom(s, k);
        DeleteTabled(g, s, k, zero);
        PruneTabled(g, Delete(s, k), k + 1, n, zero);
      } else {
        PruneTabled(g, s, k + 1, n, zero);
      }
    }
  }

  lemma StrayAfter(was: Infos, now: Infos, id: int)
    requires AllAlike(now, was - {id}) && forall j | 0 <= j < id :: !Stray(was, j)
    ensures forall j | 0 <= j <= id :: !Stray(now, j)
  {
    forall j | 0 <= j <= id ensures !Stray(now, j) {
      if j in now {
        assert Alike(now[j], (was - {id})[j]);
        assert j < id && !Stray(was, j);
      }
    }
  }

  // ------------------------------------------------------------------------- the theorem

  lemma LoadParts(g: Geometry, st: Stored, v: nat, collisions: set<int>)
    requires Complete(st) && 0 <= st.nTried && g.InRange()
    ensures var c, s := Loaded(g, st), Shelved(g, st, v, collisions);
      && Tabled(g, s, NewIds(c.info)) && SameRecords(s.info, c.info) && s.triedTable == c.tried
      && s.addrs == c.addrs && forall k | 0 <= k < |st.newInfos| :: Served(g, Shelf(s.info, s.newTable), k)
  {
    hide Tabled, Served, SameRecords, CoreOk, Loaded, NoteBuckets, PlaceAll, FlipBit30;
    var c := Loaded(g, st);
    LoadedOk(g, st);
    Unshelved(g, st, collisions);
    CoreWaits(g, st, c);
    LoadedIds(g, st);
    NotedInRange(st.buckets, |st.buckets|, st.nNew);
    var s := State(st.key, c.ids, c.info, c.addrs, c.random, c.tried, st.nTried - c.lost, map[], st.nNew, 1,
        collisions);
    var h, m := Shelf(c.info, map[]), NoteBuckets(st.buckets, |st.buckets|, st.nNew);
    assert Under(s, h) == s;
    AllServed(g, Usable(g, st, v), m, s, h, |st.newInfos|, |st.newInfos|, NewIds(c.info));
  }

  lemma CoreWaits(g: Geometry, st: Stored, c: Core)
    requires CoreOk(g, st, c, |Entries(st)|) && |st.newInfos| <= c.ids
    ensures Waiting(c.info, 0, |st.newInfos|)
  {
    hide AddrsOk, RandomOk, TriedOk, Entries;
    forall k | 0 <= k < |st.newInfos| ensures k in c.info && !c.info[k].inTried && c.info[k].refCount == 0 {
      var j :| 0 <= j < |Entries(st)| && IsEntry(st, c.info[k], j);
    }
  }

  predicate Sole(info: Infos, k: int) {
    k in info && forall j | j in info && j != k :: info[j].rec.svc.net != info[k].rec.svc.net
  }

  /**
   What the stream must be like: a key, a count that is not negative, and for each entry
   that got a slot, sane times and an address that no other loaded entry has.
   */
  ghost predicate Clean(st: Stored, info: Infos) {
    && st.key != 0 && 0 <= st.nTried
    && forall k | k in info && !Stray(info, k) :: TimelyRecord(info[k].rec, info[k].inTried) && Sole(info, k)
  }

  lemma LoadEffect(g: Geometry, st: Stored, v: nat, collisions: set<int>)
    requires Complete(st)
    ensures var s, t := Shelved(g, st, v, collisions), Load(g, st, v, collisions);
      && Pruned(s, t) && (forall j | 0 <= j < s.idCount :: !Stray(t.info, j)) && s.key == st.key
      && (st.nTried < 0 ==> s.nTried < 0)
  {
    hide Pruned, Prune, RandomOk, Loaded, PlaceAll, NoteBuckets, Stray;
    ShelvedRandom(g, st, v, collisions);
    var s := Shelved(g, st, v, collisions);
    PruneEffect(s, 0, s.idCount);
  }

  /** Two entries with one address, one of them with a slot, cannot both be indexed. */
  lemma CleanNeeded(g: Geometry, st: Stored, s: State, t: State)
    requires Pruned(s, t) && Consistent(g, t) && s.key == st.key && (st.nTried < 0 ==> s.nTried < 0)
    ensures Clean(st, s.info)
  {
    hide RandomOk, TriedOk, NewSlotsOk, RefsOk, Stray;
    forall k | k in s.info && !Stray(s.info, k)
      ensures TimelyRecord(s.info[k].rec, s.info[k].inTried) && Sole(s.info, k)
    {
      assert k in t.info && Alike(t.info[k], s.info[k]);
      forall j | j in s.info && j != k ensures s.info[j].rec.svc.net != s.info[k].rec.svc.net {
        if j in t.info { assert Alike(t.info[j], s.info[j]); }
      }
    }
  }

  lemma CleanAddrs(s: State, t: State)
    requires Pruned(s, t) && Leads(s.info, s.addrs) && forall k | k in t.info :: Sole(s.info, k)
    ensures AddrsOk(t.info, t.addrs)
  {
    hide Stray;
    forall id | id in t.info
      ensures var a := t.info[id].rec.svc.net; a in t.addrs && t.addrs[a] == id
    {
      assert id in s.info && Alike(t.info[id], s.info[id]) && Sole(s.info, id);
      var a := s.info[id].rec.svc.net;
      assert a in s.addrs && s.info[s.addrs[a]].rec.svc.net == a;
    }
    forall a | a in t.addrs ensures t.addrs[a] in t.info && t.info[t.addrs[a]].rec.svc.net == a {
      var x := s.addrs[a];
      assert x in s.info && s.info[x].rec.svc.net == a;
      assert x in t.info && Alike(t.info[x], s.info[x]);
    }
  }

  /** What is left got a slot. */
  lemma LeftHasSlot(s: State, t: State, k: int)
    requires Pruned(s, t) && k in t.info && !Stray(t.info, k)
    ensures k in s.info && !Stray(s.info, k) && Alike(t.info[k], s.info[k])
  {
    hide Delisted;
  }

  lemma CleanEnough(g: Geometry, st: Stored, s: State, t: State, zero: set<int>)
    requires Pruned(s, t) && Tabled(g, t, zero) && Leads(s.info, s.addrs) && Clean(st, s.info) && s.key == st.key
    requires forall j | 0 <= j < s.idCount :: !Stray(t.info, j)
    ensures Consistent(g, t)
  {
    hide RandomOk, TriedOk, NewSlotsOk, Pruned, Leads, Sole;
    PrunedParts(s, t);
    forall k | k in t.info
      ensures Sole(s.info, k) && TimelyRecord(t.info[k].rec, t.info[k].inTried)
      ensures t.info[k].inTried || 1 <= t.info[k].refCount
    {
      assert !Stray(t.info, k);
      LeftHasSlot(s, t, k);
    }
    CleanAddrs(s, t);
  }

  lemma PrunedParts(s: State, t: State)
    requires Pruned(s, t)
    ensures t.idCount == s.idCount && t.key == s.key && t.newTable == s.newTable
  {}

  lemma ShelvedLeads(g: Geometry, st: Stored, v: nat, collisions: set<int>)
    requires Complete(st) && 0 <= st.nTried && g.InRange()
    ensures var s := Shelved(g, st, v, collisions); Leads(s.info, s.addrs) && (Sound(st) ==> AddrsOk(s.info, s.addrs))
  {
    hide Loaded, Shelved, Tabled, Served, Sound, RandomOk, TriedOk, Comes, Entries;
    LoadParts(g, st, v, collisions);
    LoadedOk(g, st);
    var s, c := Shelved(g, st, v, collisions), Loaded(g, st);
    forall k | k in s.info ensures k in c.info && s.info[k].rec == c.info[k].rec { SameRecordOf(s.info, c.info, k); }
  }

  /** Loading gives a consistent manager exactly when the stream is clean. */
  lemma LoadExactly(g: Geometry, st: Stored, v: nat, collisions: set<int>)
    requires Complete(st) && g.InRange()
    ensures Consistent(g, Load(g, st, v, collisions)) <==> Clean(st, Shelved(g, st, v, collisions).info)
  {
    hide Weak, Tabled, Shelved, Served, SameRecords, Pruned, Prune, RandomOk, Loaded, Leads, Clean, Load, Stray;
    var s, t := Shelved(g, st, v, collisions), Load(g, st, v, collisions);
    LoadEffect(g, st, v, collisions);
    if Consistent(g, t) {
      CleanNeeded(g, st, s, t);
    }
    if Clean(st, s.info) {
      CleanCount(st, s.info);
      LoadParts(g, st, v, collisions);
      ShelvedLeads(g, st, v, collisions);
      LoadTabled(g, st, v, collisions);
      CleanEnough(g, st, s, t, NewIds(Loaded(g, st).info));
    }
  }

  lemma CleanCount(st: Stored, info: Infos)
    requires Clean(st, info)
    ensures 0 <= st.nTried
  {}

  lemma LoadTabled(g: Geometry, st: Stored, v: nat, collisions: set<int>)
    requires Complete(st) && 0 <= st.nTried && g.InRange()
    ensures Tabled(g, Load(g, st, v, collisions), NewIds(Loaded(g, st).info))
  {
    hide Tabled, Shelved, Prune, RandomOk, Loaded, Served, SameRecords;
    LoadParts(g, st, v, collisions);
    ShelvedRandom(g, st, v, collisions);
    var s := Shelved(g, st, v, collisions);
    PruneTabled(g, s, 0, s.idCount, NewIds(Loaded(g, st).info));
  }

  /** Distinct addresses and sane times are enough, whatever asmap is in use. */
  lemma LoadConsistent(g: Geometry, st: Stored, v: nat, collisions: set<int>)
    requires Sound(st) && g.InRange()
    ensures Consistent(g, Load(g, st, v, collisions))
    ensures Pruned(Shelved(g, st, v, collisions), Load(g, st, v, collisions))
  {
    hide Weak, Tabled, Shelved, Served, SameRecords, Pruned, Prune, RandomOk, Loaded, Leads, Load, AddrsOk, Stray;
    LoadEffect(g, st, v, collisions);
    LoadParts(g, st, v, collisions);
    LoadedOk(g, st);
    ShelvedLeads(g, st, v, collisions);
    SoundClean(g, st, Loaded(g, st), Shelved(g, st, v, collisions));
    LoadExactly(g, st, v, collisions);
  }

  lemma SoundClean(g: Geometry, st: Stored, c: Core, s: State)
    requires Sound(st) && CoreOk(g, st, c, |Entries(st)|) && SameRecords(s.info, c.info) && AddrsOk(s.info, s.addrs)
    ensures Clean(st, s.info)
  {
    hide Leads, RandomOk, TriedOk, Entries, Complete;
    forall k | k in s.info ensures TimelyRecord(s.info[k].rec, s.info[k].inTried) && Sole(s.info, k) {
      assert s.info[k].(refCount := 0) == c.info[k].(refCount := 0);
      var j :| 0 <= j < |Entries(st)| && IsEntry(st, c.info[k], j);
    }
  }

  // ------------------------------------------------------------------- re-bucketing

  /** The n-th new entry is loaded under the number n. */
  lemma {:induction false} NewNumbered(infos: seq<Record>, n: nat, k: nat)
    requires k < n <= |infos|
    ensures var c := LoadNew(infos, n); k in c.info && c.info[k].rec == infos[k]
  {
    if k < n - 1 { NewNumbered(infos, n - 1, k); }
  }

  lemma {:induction false} TriedLeaves(g: Geometry, c: Core, infos: seq<Record>, n: nat, k: nat)
    requires n <= |infos| && k < c.ids && k in c.info
    ensures var d := LoadTried(g, c, infos, n); k < d.ids && k in d.info && d.info[k] == c.info[k]
  {
    if n > 0 { TriedLeaves(g, c, infos, n - 1, k); }
  }

  lemma SameTable(m: Infos, n: Infos, k: int)
    requires SameRecords(m, n) && k in m
    ensures k in n && m[k].inTried == n[k].inTried
  {
    assert m[k].(refCount := 0) == n[k].(refCount := 0);
  }

  /** Of the first n entries, every one belongs to an occupied slot, and a slot holds the first that belongs there. */
  ghost predicate FirstCome(g: Geometry, infos: seq<Record>, table: map<Slot, int>, n: nat)
    requires n <= |infos|
  {
    && (forall k | 0 <= k < n :: g.NewSlot(infos[k].svc, infos[k].source) in table)
    && (forall sl | sl in table :: 0 <= table[sl] < n && IsFirstFor(g, infos, sl, table[sl]))
  }

  ghost predicate IsFirstFor(g: Geometry, infos: seq<Record>, sl: Slot, k: int) {
    && 0 <= k < |infos| && g.NewSlot(infos[k].svc, infos[k].source) == sl
    && forall j | 0 <= j < k :: g.NewSlot(infos[j].svc, infos[j].source) != sl
  }

  /** Entries in the table have gained a reference. */
  ghost predicate Gained(was: Infos, h: Shelf) {
    forall sl | sl in h.table ::
      h.table[sl] in was && h.table[sl] in h.info && was[h.table[sl]].refCount < h.info[h.table[sl]].refCount
  }

  ghost predicate Numbered(info: Infos, infos: seq<Record>) {
    forall k | 0 <= k < |infos| :: k in info && info[k].rec == infos[k]
  }

  lemma NumberedAt(info: Infos, infos: seq<Record>, k: nat)
    requires Numbered(info, infos) && k < |infos|
    ensures k in info && info[k].rec == infos[k]
  {}

  ghost predicate NotLess(was: Infos, now: Infos) {
    now.Keys == was.Keys && forall k | k in was :: was[k].refCount <= now[k].refCount
  }

  lemma {:induction false} PlacedByHome(g: Geometry, m: map<int, nat>, h: Shelf, infos: seq<Record>, n: nat)
    requires n <= |infos| && h.table == map[] && Numbered(h.info, infos) && forall k | 0 <= k < n :: k in h.info
    ensures var r := PlaceAll(g, false, m, h, n);
      FirstCome(g, infos, r.table, n) && SameRecords(r.info, h.info) && Gained(h.info, r) && NotLess(h.info, r.info)
  {
    hide FirstCome, SameRecords, Gained, NotLess, Place, Numbered;
    if n == 0 {
      NothingPlaced(g, h, infos);
      SameSelf(h.info);
    } else {
      PlacedByHome(g, m, h, infos, n - 1);
      var p := PlaceAll(g, false, m, h, n - 1);
      SameRecordOf(p.info, h.info, n - 1);
      NumberedAt(h.info, infos, n - 1);
      NextByHome(g, h.info, NotedBucket(m, n - 1), p, infos, n - 1);
      SameTrans(Place(g, false, NotedBucket(m, n - 1), p, n - 1).info, p.info, h.info);
    }
  }

  lemma NothingPlaced(g: Geometry, h: Shelf, infos: seq<Record>)
    requires h.table == map[]
    ensures FirstCome(g, infos, h.table, 0) && Gained(h.info, h) && NotLess(h.info, h.info)
  {}

  lemma NextByHome(g: Geometry, was: Infos, bucket: nat, h: Shelf, infos: seq<Record>, n: nat)
    requires n < |infos| && FirstCome(g, infos, h.table, n) && Gained(was, h) && NotLess(was, h.info)
    requires n in h.info && h.info[n].rec == infos[n]
    ensures var r := Place(g, false, bucket, h, n);
      FirstCome(g, infos, r.table, n + 1) && SameRecords(r.info, h.info) && Gained(was, r) && NotLess(was, r.info)
  {
    var r, home := Place(g, false, bucket, h, n), g.NewSlot(infos[n].svc, infos[n].source);
    assert r == if home in h.table then h else Put(h, n, home);
    ComesFirst(g, infos, h.table, n);
    GainsOne(was, h, n, home);
  }

  lemma ComesFirst(g: Geometry, infos: seq<Record>, table: map<Slot, int>, n: nat)
    requires n < |infos| && FirstCome(g, infos, table, n)
    ensures var home := g.NewSlot(infos[n].svc, infos[n].source);
      FirstCome(g, infos, if home in table then table else table[home := n], n + 1)
  {}

  lemma GainsOne(was: Infos, h: Shelf, n: int, sl: Slot)
    requires n in h.info && Gained(was, h) && NotLess(was, h.info)
    ensures var r := Put(h, n, sl); SameRecords(r.info, h.info) && Gained(was, r) && NotLess(was, r.info)
  {}

  /**
   Bucket positions of another asmap, of another number of buckets or of an old format
   are not used: every entry goes to the slot that its own source selects, the first
   one in the stream wins the slot, and it keeps its record.
   */
  lemma Rebucketed(g: Geometry, st: Stored, v: nat, collisions: set<int>)
    requires Complete(st) && (st.format < 2 || |st.buckets| != g.newBuckets || v != st.asmapVersion)
    ensures var t := Load(g, st, v, collisions);
      && FirstCome(g, st.newInfos, t.newTable, |st.newInfos|)
      && forall sl | sl in t.newTable ::
        var k := t.newTable[sl];
        k in t.info && 0 <= k < |st.newInfos| && t.info[k].rec == st.newInfos[k] && !t.info[k].inTried
  {
    hide Pruned, Prune, Loaded, NoteBuckets, PlaceAll, RandomOk, FirstCome, SameRecords, Stray, Load, NotLess;
    var c, s, t := Loaded(g, st), Shelved(g, st, v, collisions), Load(g, st, v, collisions);
    LoadedIds(g, st);
    LoadedNew(g, st);
    LoadEffect(g, st, v, collisions);
    var m := NoteBuckets(st.buckets, |st.buckets|, st.nNew);
    PlacedByHome(g, m, Shelf(c.info, map[]), st.newInfos, |st.newInfos|);
    forall sl | sl in s.newTable ensures var k := s.newTable[sl];
        k in t.info && 0 <= k < |st.newInfos| && t.info[k].rec == st.newInfos[k] && !t.info[k].inTried
    {
      var k := s.newTable[sl];
      FirstInRange(g, st.newInfos, s.newTable, sl);
      SameRecordOf(s.info, c.info, k);
      SameTable(s.info, c.info, k);
      NotStray(s, t, k);
    }
    PrunedParts(s, t);
  }

  /** The slot that the k-th entry of a stream had. */
  function HadSlot(g: Geometry, st: Stored, k: nat): Slot
    requires k < |st.newInfos|
  {
    var b := NotedBucket(NoteBuckets(st.buckets, |st.buckets|, st.nNew), k);
    Slot(b, g.position(st.newInfos[k].svc, true, b))
  }

  /** Under the same asmap and number of buckets, entries that had different slots have them again. */
  lemma Restored(g: Geometry, st: Stored, v: nat, collisions: set<int>)
    requires Complete(st) && 2 <= st.format && |st.buckets| == g.newBuckets && v == st.asmapVersion
    requires forall j, k | 0 <= j < k < |st.newInfos| :: HadSlot(g, st, j) != HadSlot(g, st, k)
    ensures var t := Load(g, st, v, collisions);
      forall k | 0 <= k < |st.newInfos| :: HadSlot(g, st, k) in t.newTable && t.newTable[HadSlot(g, st, k)] == k
  {
    hide Pruned, Prune, Loaded, NoteBuckets, PlaceAll, RandomOk, SameRecords, Stray, Load;
    var c, s, t := Loaded(g, st), Shelved(g, st, v, collisions), Load(g, st, v, collisions);
    LoadedIds(g, st);
    LoadedNew(g, st);
    LoadEffect(g, st, v, collisions);
    PrunedParts(s, t);
    var home := seq(|st.newInfos|, k requires 0 <= k < |st.newInfos| => HadSlot(g, st, k));
    LoadedBare(g, st);
    AllPlaced(g, NoteBuckets(st.buckets, |st.buckets|, st.nNew), home, Shelf(c.info, map[]), |home|);
    forall k | 0 <= k < |st.newInfos|
      ensures HadSlot(g, st, k) in s.newTable && s.newTable[HadSlot(g, st, k)] == k
    {
      assert home[k] == HadSlot(g, st, k);
    }
  }

  lemma LoadedBare(g: Geometry, st: Stored)
    requires Complete(st)
    ensures forall k | k in Loaded(g, st).info :: Loaded(g, st).info[k].refCount == 0
  {
    hide Loaded, Leads, RandomOk, TriedOk, Entries;
    LoadedOk(g, st);
    var c := Loaded(g, st);
    forall k | k in c.info ensures c.info[k].refCount == 0 {
      var j :| 0 <= j < |Entries(st)| && IsEntry(st, c.info[k], j);
    }
  }

  lemma FirstInRange(g: Geometry, infos: seq<Record>, table: map<Slot, int>, sl: Slot)
    requires FirstCome(g, infos, table, |infos|) && sl in table
    ensures 0 <= table[sl] < |infos|
  {}

  lemma NotStray(s: State, t: State, k: int)
    requires Pruned(s, t) && k in s.info && s.info[k].refCount != 0
    ensures k in t.info && t.info[k].rec == s.info[k].rec && t.info[k].inTried == s.info[k].inTried
  {
    hide Delisted;
    assert k in t.info && Alike(t.info[k], s.info[k]);
  }

  /** The new entries as loaded: the k-th under the number k, unreferenced. */
  lemma LoadedNew(g: Geometry, st: Stored)
    requires Complete(st)
    ensures var c := Loaded(g, st);
      forall k | 0 <= k < |st.newInfos| ::
        k in c.info && c.info[k].rec == st.newInfos[k] && !c.info[k].inTried && c.info[k].refCount == 0
  {
    hide LoadNew, LoadTried, CoreOk;
    LoadedOk(g, st);
    var c := Loaded(g, st);
    CoreWaits(g, st, c);
    var n := |st.newInfos|;
    forall k | 0 <= k < n ensures k in c.info && c.info[k].rec == st.newInfos[k] {
      NewNumbered(st.newInfos, n, k);
      TriedLeaves(g, LoadNew(st.newInfos, n), st.triedInfos, |st.triedInfos|, k);
    }
  }

  // ------------------------------------------------------------ an address stored twice

  lemma {:induction false} FirstTried(g: Geometry, c: Core, infos: seq<Record>, n: nat)
    requires 0 < n <= |infos| && c.tried == map[] && forall k :: k in c.info <==> 0 <= k < c.ids
    ensures var d := LoadTried(g, c, infos, n);
      c.ids < d.ids && c.ids in d.info && d.info[c.ids].inTried && d.info[c.ids].rec == infos[0]
  {
    if n > 1 {
      FirstTried(g, c, infos, n - 1);
    } else {
      assert LoadTried(g, c, infos, 0) == c;
    }
  }

  /**
   The code does not look for repeated addresses. When the first tried entry of a stream
   has the address of a new one, both are kept and mapAddr can lead to one of them only.
   */
  lemma StoredTwice(g: Geometry, st: Stored, v: nat, collisions: set<int>, i: nat)
    requires Complete(st) && 0 < st.nTried && g.InRange() && i < |st.newInfos|
    requires st.newInfos[i].svc.net == st.triedInfos[0].svc.net
    ensures !Consistent(g, Load(g, st, v, collisions))
  {
    hide Weak, Tabled, Shelved, Served, RandomOk, Load, LoadNew, LoadTried, Leads, SameRecords;
    var n := |st.newInfos|;
    LoadParts(g, st, v, collisions);
    LoadExactly(g, st, v, collisions);
    NewNumbered(st.newInfos, n, i);
    NewIdsLoaded(st.newInfos, n);
    NewLoads(g, st, n);
    var c, s := LoadNew(st.newInfos, n), Shelved(g, st, v, collisions);
    TriedLeaves(g, c, st.triedInfos, |st.triedInfos|, i);
    FirstTried(g, c, st.triedInfos, |st.triedInfos|);
    SameRecordOf(s.info, Loaded(g, st).info, i);
    SameRecordOf(s.info, Loaded(g, st).info, n);
    SameTable(s.info, Loaded(g, st).info, n);
    assert !Stray(s.info, n) && !Sole(s.info, n);
  }

  lemma SomeRoom(g: Geometry)
    requires g.InRange()
    ensures 1 <= g.newBuckets * g.bucketSize && 1 <= g.triedBuckets * g.bucketSize
  {
    var svc := Service(NetAddr(0, []), 0);
    SomeBucket(g);
    assert g.triedBucket(svc) < g.triedBuckets && g.position(svc, true, 0) < g.bucketSize;
  }

  /** Such a stream: one peer, once new and once tried, under every bucketing. */
  lemma TwiceExample(g: Geometry, v: nat, collisions: set<int>)
    requires g.InRange()
    ensures var r := Record(Service(NetAddr(4, [1, 2, 3, 4]), 8333), {}, 0, NetAddr(4, [5, 6, 7, 8]), 0, 0, 1, 0);
      var st := Stored(0, 32, 1, 1, 1, 0, [r], [r], [], 0);
      Complete(st) && !Refused(g, st) && !Consistent(g, Load(g, st, v, collisions))
  {
    hide Weak, Load;
    SomeRoom(g);
    var r := Record(Service(NetAddr(4, [1, 2, 3, 4]), 8333), {}, 0, NetAddr(4, [5, 6, 7, 8]), 0, 0, 1, 0);
    StoredTwice(g, Stored(0, 32, 1, 1, 1, 0, [r], [r], [], 0), v, collisions, 0);
  }

  /** An entry of the stream is kept, with its record and its table, or the slot it belongs to holds another. */
  predicate KeptOrTaken(g: Geometry, t: State, r: Record, tried: bool) {
    var a := r.svc.net;
    || (a in t.addrs && t.addrs[a] in t.info && t.info[t.addrs[a]].rec == r && t.info[t.addrs[a]].inTried == tried)
    || (if tried then g.TriedSlot(r.svc) in t.triedTable else g.NewSlot(r.svc, r.source) in t.newTable)
  }

  /** Every entry of the manager is one of the stream, in the table that the stream has it in. */
  ghost predicate FromStream(st: Stored, info: Infos) {
    forall k | k in info :: exists j: nat :: IsEntry(st, info[k].(refCount := 0), j)
  }

  lemma LoadedFrom(g: Geometry, st: Stored, v: nat, collisions: set<int>)
    requires Sound(st) && g.InRange()
    ensures FromStream(st, Load(g, st, v, collisions).info)
  {
    hide Weak, Tabled, Shelved, Served, RandomOk, Loaded, Prune, Entries, Load, Complete, Delisted;
    LoadConsistent(g, st, v, collisions);
    LoadParts(g, st, v, collisions);
    LoadedOk(g, st);
    var c, s, t := Loaded(g, st), Shelved(g, st, v, collisions), Load(g, st, v, collisions);
    forall k | k in t.info ensures exists j: nat :: IsEntry(st, t.info[k].(refCount := 0), j) {
      assert k in s.info && Alike(t.info[k], s.info[k]);
      assert k in c.info && s.info[k].(refCount := 0) == c.info[k].(refCount := 0);
      CoreComes(g, st, c);
      var j :| 0 <= j < |Entries(st)| && IsEntry(st, c.info[k], j);
      assert IsEntry(st, t.info[k].(refCount := 0), j);
    }
  }

  lemma CoreComes(g: Geometry, st: Stored, c: Core)
    requires CoreOk(g, st, c, |Entries(st)|)
    ensures Comes(st, c.info, |Entries(st)|) && (forall k :: k in c.info <==> 0 <= k < c.ids)
  {
    hide Entries, Comes, Leads;
  }

  lemma TriedKept(g: Geometry, st: Stored, v: nat, collisions: set<int>, n: nat)
    requires Sound(st) && g.InRange() && n < |st.triedInfos|
    ensures KeptOrTaken(g, Load(g, st, v, collisions), st.triedInfos[n], true)
  {
    hide Weak, Tabled, Shelved, Served, SameRecords, RandomOk, Loaded, Prune, Entries, Load, Delisted;
    LoadConsistent(g, st, v, collisions);
    LoadParts(g, st, v, collisions);
    LoadedOk(g, st);
  }

  lemma NewKept(g: Geometry, st: Stored, v: nat, collisions: set<int>, n: nat)
    requires Sound(st) && g.InRange() && n < |st.newInfos|
    ensures KeptOrTaken(g, Load(g, st, v, collisions), st.newInfos[n], false)
  {
    hide Weak, Tabled, Shelved, RandomOk, LoadNew, LoadTried, Prune, Load, Delisted;
    LoadConsistent(g, st, v, collisions);
    LoadParts(g, st, v, collisions);
    LoadedOk(g, st);
    NewNumbered(st.newInfos, |st.newInfos|, n);
    TriedLeaves(g, LoadNew(st.newInfos, |st.newInfos|), st.triedInfos, |st.triedInfos|, n);
    var c, s, t := Loaded(g, st), Shelved(g, st, v, collisions), Load(g, st, v, collisions);
    SameRecordOf(s.info, c.info, n);
    assert Served(g, Shelf(s.info, s.newTable), n);
    NewNotTried(g, st, c, n);
    assert s.info[n].inTried == c.info[n].inTried;
    if s.info[n].refCount != 0 {
      assert n in t.info && Alike(t.info[n], s.info[n]);
      IndexedUnder(g, t, n);
    }
  }

  lemma NewNotTried(g: Geometry, st: Stored, c: Core, n: nat)
    requires CoreOk(g, st, c, |Entries(st)|) && n < |st.newInfos| && n in c.info
    ensures !c.info[n].inTried
  {
    hide AddrsOk, RandomOk, TriedOk, Comes, Entries;
  }

  lemma IndexedUnder(g: Geometry, t: State, id: int)
    requires Consistent(g, t) && id in t.info
    ensures var a := t.info[id].rec.svc.net; a in t.addrs && t.addrs[a] == id
  {
    hide RandomOk, TriedOk, NewSlotsOk, RefsOk, CountsOk;
  }

  // --------------------------------------------------------------- what Serialize writes

  lemma SavedEntry(g: Geometry, s: State, v: nat, k: nat)
    requires Consistent(g, s) && k < |Sources(s)|
    ensures var st := Save(g, s, v);
      && |Entries(st)| == |Sources(s)| && Entries(st)[k] == Persist(s.info[Sources(s)[k]].rec)
      && (s.info[Sources(s)[k]].inTried <==> |st.newInfos| <= k)
  {
    hide Weak, Persist, AllIndices, FlipBit30;
    SourcesInjective(g, s);
  }

  lemma SaveSound(g: Geometry, s: State, v: nat)
    requires Consistent(g, s)
    ensures Sound(Save(g, s, v))
  {
    hide Weak, Save, Entries, Sources, Complete;
    SaveComplete(g, s, v);
    SavedCounts(g, s, v);
    SourcesInjective(g, s);
    var st, src := Save(g, s, v), Sources(s);
    forall i | 0 <= i < |Entries(st)| ensures TimelyRecord(Entries(st)[i], |st.newInfos| <= i) {
      SavedEntry(g, s, v, i);
      EntryTimely(g, s, src[i]);
    }
    forall i, j | 0 <= i < j < |Entries(st)| ensures Entries(st)[i].svc.net != Entries(st)[j].svc.net {
      SavedEntry(g, s, v, i);
      SavedEntry(g, s, v, j);
      IndexedUnder(g, s, src[i]);
      IndexedUnder(g, s, src[j]);
    }
  }

  lemma SavedCounts(g: Geometry, s: State, v: nat)
    requires Consistent(g, s)
    ensures var st := Save(g, s, v); 0 <= st.nTried && st.key != 0 && |Entries(st)| == |Sources(s)|
  {}

  lemma EntryTimely(g: Geometry, s: State, id: int)
    requires Consistent(g, s) && id in s.info
    ensures TimelyRecord(Persist(s.info[id].rec), s.info[id].inTried)
  {
    hide AddrsOk, RandomOk, TriedOk, NewSlotsOk, RefsOk, CountsOk;
  }

  /** Only entries of s are left, each with its record and in its table. */
  ghost predicate Survivors(s: State, t: State) {
    forall a | a in t.addrs :: a in s.addrs && s.addrs[a] in s.info && t.addrs[a] in t.info
        && SamePeer(s.info[s.addrs[a]], t.info[t.addrs[a]])
  }

  predicate SamePeer(i: Info, j: Info) {
    j.rec == i.rec.(lastTry := 0, lastCountAttempt := 0) && j.inTried == i.inTried
  }

  /** An entry that is gone has lost its slot to another. */
  ghost predicate LostToOthers(g: Geometry, s: State, t: State) {
    forall a | a in s.addrs && a !in t.addrs ::
      && s.addrs[a] in s.info
      && var i := s.info[s.addrs[a]];
      if i.inTried then g.TriedSlot(i.rec.svc) in t.triedTable else g.NewSlot(i.rec.svc, i.rec.source) in t.newTable
  }

  lemma LoadSurvivors(g: Geometry, s: State, v: nat, g': Geometry, t: State)
    requires Consistent(g, s) && Consistent(g', t) && FromStream(Save(g, s, v), t.info)
    ensures Survivors(s, t)
  {
    hide Weak, Save, Persist;
    var st := Save(g, s, v);
    SavedCounts(g, s, v);
    forall a | a in t.addrs
      ensures a in s.addrs && s.addrs[a] in s.info && t.addrs[a] in t.info
      ensures SamePeer(s.info[s.addrs[a]], t.info[t.addrs[a]])
    {
      KnownAddress(g', t, a);
      var id := t.addrs[a];
      var j: nat :| IsEntry(st, t.info[id].(refCount := 0), j);
      SavedEntry(g, s, v, j);
      var src := Sources(s)[j];
      IndexedUnder(g, s, src);
      PersistKeeps(s.info[src].rec);
    }
  }

  lemma KnownAddress(g: Geometry, t: State, a: NetAddr)
    requires Consistent(g, t) && a in t.addrs
    ensures t.addrs[a] in t.info && t.info[t.addrs[a]].rec.svc.net == a
  {
    hide RandomOk, TriedOk, NewSlotsOk, RefsOk, CountsOk, TimesOk;
  }

  lemma LoadLosses(g: Geometry, s: State, v: nat, g': Geometry, v': nat, collisions: set<int>)
    requires Consistent(g, s) && Sound(Save(g, s, v)) && g'.InRange()
    ensures LostToOthers(g', s, Load(g', Save(g, s, v), v', collisions))
  {
    hide Weak, Save, Load, Sources, KeptOrTaken;
    var st := Save(g, s, v);
    var t := Load(g', st, v', collisions);
    forall a | a in s.addrs && a !in t.addrs
      ensures s.addrs[a] in s.info && var i := s.info[s.addrs[a]];
        if i.inTried then g'.TriedSlot(i.rec.svc) in t.triedTable else g'.NewSlot(i.rec.svc, i.rec.source) in t.newTable
    {
      KnownAddress(g, s, a);
      var k := SourceOf(g, s, s.addrs[a]);
      SavedEntry(g, s, v, k);
      if k < |st.newInfos| {
        NewKept(g', st, v', collisions, k);
      } else {
        TriedKept(g', st, v', collisions, k - |st.newInfos|);
      }
      Taken(g', t, Entries(st)[k], |st.newInfos| <= k);
    }
  }

  lemma Taken(g: Geometry, t: State, r: Record, tried: bool)
    requires KeptOrTaken(g, t, r, tried) && r.svc.net !in t.addrs
    ensures if tried then g.TriedSlot(r.svc) in t.triedTable else g.NewSlot(r.svc, r.source) in t.newTable
  {}

  /** Every slot of the new table is the one that the source of its entry selects. */
  ghost predicate AllAtHome(g: Geometry, t: State) {
    forall sl | sl in t.newTable ::
      && t.newTable[sl] in t.info
      && var r := t.info[t.newTable[sl]].rec; sl == g.NewSlot(r.svc, r.source)
  }

  /**
   Unserialize of Serialize under any asmap and any key to the buckets of the same
   number: accepted and consistent; the entries are among the old ones, each with its
   record and in its table; and those that are gone have lost their slot to another.
   Under another asmap, old positions in the new table are not used.
   */
  lemma ReloadAnywhere(g: Geometry, s: State, v: nat, g': Geometry, v': nat, collisions: set<int>)
    requires Consistent(g, s) && g.InRange() && g'.InRange()
    requires g'.newBuckets == g.newBuckets && g'.triedBuckets == g.triedBuckets && g'.bucketSize == g.bucketSize
    ensures var st := Save(g, s, v);
      && Complete(st) && !Refused(g', st)
      && var t := Load(g', st, v', collisions);
      && Consistent(g', t) && Survivors(s, t) && LostToOthers(g', s, t)
      && (v' != v ==> AllAtHome(g', t))
  {
    hide Weak, Save, Load, Survivors, LostToOthers, FromStream, AllAtHome;
    var st := Save(g, s, v);
    SaveSound(g, s, v);
    SaveAccepted(g, s, v);
    LoadConsistent(g', st, v', collisions);
    LoadedFrom(g', st, v', collisions);
    LoadSurvivors(g, s, v, g', Load(g', st, v', collisions));
    LoadLosses(g, s, v, g', v', collisions);
    if v' != v {
      SavedVersion(g, s, v);
      Rebucketed(g', st, v', collisions);
      FirstAtHome(g', st, Load(g', st, v', collisions));
    }
  }

  lemma SavedVersion(g: Geometry, s: State, v: nat)
    ensures Save(g, s, v).asmapVersion == v
  {}

  lemma FirstAtHome(g: Geometry, st: Stored, t: State)
    requires FirstCome(g, st.newInfos, t.newTable, |st.newInfos|)
    requires forall sl | sl in t.newTable :: var k := t.newTable[sl];
        k in t.info && 0 <= k < |st.newInfos| && t.info[k].rec == st.newInfos[k]
    ensures AllAtHome(g, t)
  {
    forall sl | sl in t.newTable
      ensures t.newTable[sl] in t.info && var r := t.info[t.newTable[sl]].rec; sl == g.NewSlot(r.svc, r.source)
    {
      assert IsFirstFor(g, st.newInfos, sl, t.newTable[sl]);
    }
  }
}
