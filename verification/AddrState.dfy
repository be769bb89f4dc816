/**
 The consistency conditions of the address manager and the value-level form of
 the private helpers of src/addrman.cpp. Every helper is proved to keep the
 conditions, including in the states between two helper calls in which some id
 is not referenced yet or not counted yet.
 */
module AddrState {
  import opened AddrTypes

  type Infos = map<int, Info>

  // ---------------------------------------------------------------- invariant

  ghost predicate IdsOk(info: Infos, idCount: nat) {
    forall id | id in info :: 0 <= id < idCount
  }

  /** mapAddr is the inverse of mapInfo. */
  ghost predicate AddrsOk(info: Infos, addrs: map<NetAddr, int>) {
    && (forall id | id in info :: info[id].rec.svc.net in addrs && addrs[info[id].rec.svc.net] == id)
    && (forall a | a in addrs :: addrs[a] in info && info[addrs[a]].rec.svc.net == a)
  }

  /** vRandom and nRandomPos are inverse. */
  ghost predicate RandomOk(info: Infos, random: seq<int>) {
    && (forall id | id in info :: 0 <= info[id].randomPos < |random| && random[info[id].randomPos] == id)
    && (forall i | 0 <= i < |random| :: random[i] in info && info[random[i]].randomPos == i)
  }

  /** The tried table holds exactly the tried ids, each in its own slot. */
  ghost predicate TriedOk(g: Geometry, info: Infos, tried: map<Slot, int>) {
    && (forall sl | sl in tried ::
          tried[sl] in info && info[tried[sl]].inTried && g.TriedSlot(info[tried[sl]].rec.svc) == sl)
    && (forall id | id in info && info[id].inTried ::
          g.TriedSlot(info[id].rec.svc) in tried && tried[g.TriedSlot(info[id].rec.svc)] == id)
  }

  ghost predicate NewSlotsOk(g: Geometry, info: Infos, table: map<Slot, int>) {
    forall sl | sl in table ::
      && sl.bucket < g.newBuckets && table[sl] in info && !info[table[sl]].inTried
      && sl.pos == g.position(info[table[sl]].rec.svc, true, sl.bucket)
  }

  /** Reference counts are true counts, from 1 to 8 outside tried; ids in `zero` may be unreferenced. */
  ghost predicate RefsOk(info: Infos, table: map<Slot, int>, zero: set<int>) {
    forall id | id in info ::
      && info[id].refCount == |RefSlots(table, id)|
      && (!info[id].inTried && id !in zero ==> 1 <= info[id].refCount)
      && info[id].refCount <= NEW_BUCKETS_PER_ADDRESS
  }

  /** nTried and nNew are true counts; `off` unreferenced ids are not counted yet. */
  ghost predicate CountsOk(info: Infos, nTried: int, nNew: int, off: int) {
    nTried == |TriedIds(info)| && nNew + off == |NewIds(info)|
  }

  ghost predicate TimesOk(info: Infos) {
    forall id | id in info ::
      && 0 <= info[id].rec.lastTry && 0 <= info[id].rec.lastSuccess
      && (info[id].inTried ==> info[id].rec.lastSuccess != 0)
  }

  ghost predicate Weak(g: Geometry, s: State, zero: set<int>, off: int) {
    && IdsOk(s.info, s.idCount) && AddrsOk(s.info, s.addrs) && RandomOk(s.info, s.random)
    && TriedOk(g, s.info, s.triedTable) && NewSlotsOk(g, s.info, s.newTable) && RefsOk(s.info, s.newTable, zero)
    && CountsOk(s.info, s.nTried, s.nNew, off) && TimesOk(s.info) && s.key != 0
  }

  /** What Check_ demands, between operations. */
  ghost predicate Consistent(g: Geometry, s: State) { Weak(g, s, {}, 0) }

  // -------------------------------------------------------- positions: vRandom

  /** Two infos that differ at most in the position in vRandom. */
  predicate Alike(i: Info, j: Info) { i.rec == j.rec && i.refCount == j.refCount && i.inTried == j.inTried }

  ghost predicate AllAlike(m: Infos, n: Infos) {
    m.Keys == n.Keys && forall id | id in m :: Alike(m[id], n[id])
  }

  predicate CanSwap(info: Infos, random: seq<int>, i: int, j: int) {
    0 <= i < |random| && 0 <= j < |random| && random[i] in info && random[j] in info
  }

  function SwapInfos(info: Infos, random: seq<int>, i: int, j: int): Infos
    requires CanSwap(info, random, i, j)
  {
    if i == j then info else
      var moved := info[random[i] := info[random[i]].(randomPos := j)];
      moved[random[j] := moved[random[j]].(randomPos := i)]
  }

  function SwapOrder(random: seq<int>, i: int, j: int): (r: seq<int>)
    requires 0 <= i < |random| && 0 <= j < |random|
    ensures |r| == |random|
  {
    random[i := random[j]][j := random[i]]
  }

  function SwapRandom(s: State, i: int, j: int): State
    requires CanSwap(s.info, s.random, i, j)
  {
    s.(info := SwapInfos(s.info, s.random, i, j), random := SwapOrder(s.random, i, j))
  }

  lemma SwapOk(info: Infos, random: seq<int>, i: int, j: int)
    requires RandomOk(info, random) && 0 <= i < |random| && 0 <= j < |random|
    ensures CanSwap(info, random, i, j)
    ensures AllAlike(SwapInfos(info, random, i, j), info)
    ensures SwapOrder(random, i, j)[j] == random[i]
    ensures RandomOk(SwapInfos(info, random, i, j), SwapOrder(random, i, j))
  {
    if i == j {
      assert SwapOrder(random, i, j) == random;
    } else {
      assert random[i] != random[j];
      assert SwapInfos(info, random, i, j).Keys == info.Keys;
    }
  }

  // ------------------------------------------------- conditions that look past positions

  lemma SameIdSets(m: Infos, n: Infos)
    requires m.Keys == n.Keys && forall id | id in m :: m[id].inTried == n[id].inTried
    ensures TriedIds(m) == TriedIds(n) && NewIds(m) == NewIds(n)
  {
    forall id ensures id in NewIds(m) <==> id in NewIds(n) {}
    forall id ensures id in TriedIds(m) <==> id in TriedIds(n) {}
  }

  lemma AlikeAddrs(m: Infos, n: Infos, addrs: map<NetAddr, int>)
    requires AllAlike(m, n) && AddrsOk(n, addrs)
    ensures AddrsOk(m, addrs)
  {}

  lemma AlikeTried(g: Geometry, m: Infos, n: Infos, tried: map<Slot, int>)
    requires AllAlike(m, n) && TriedOk(g, n, tried)
    ensures TriedOk(g, m, tried)
  {
    forall sl | sl in tried
      ensures tried[sl] in m && m[tried[sl]].inTried && g.TriedSlot(m[tried[sl]].rec.svc) == sl
    {
      var id := tried[sl];
      assert id in m && Alike(m[id], n[id]);
    }
  }

  lemma AlikeNew(g: Geometry, m: Infos, n: Infos, table: map<Slot, int>, zero: set<int>)
    requires AllAlike(m, n) && NewSlotsOk(g, n, table) && RefsOk(n, table, zero)
    ensures NewSlotsOk(g, m, table) && RefsOk(m, table, zero)
  {
    forall sl | sl in table
      ensures table[sl] in m && !m[table[sl]].inTried && m[table[sl]].rec == n[table[sl]].rec
    {
      var id := table[sl];
      assert id in m && Alike(m[id], n[id]);
    }
  }

  lemma SwapRandomKeeps(g: Geometry, s: State, i: int, j: int, zero: set<int>, off: int)
    requires Weak(g, s, zero, off) && 0 <= i < |s.random| && 0 <= j < |s.random|
    ensures CanSwap(s.info, s.random, i, j) && Weak(g, SwapRandom(s, i, j), zero, off)
  {
    SwapOk(s.info, s.random, i, j);
    var m := SwapInfos(s.info, s.random, i, j);
    AlikeAddrs(m, s.info, s.addrs);
    AlikeTried(g, m, s.info, s.triedTable);
    AlikeNew(g, m, s.info, s.newTable, zero);
    SameIdSets(m, s.info);
  }

  // ------------------------------------------------------------ Create, Delete

  function Create(s: State, a: Address, source: NetAddr): State {
    var r := Record(a.svc, a.services, a.time, source, 0, 0, 0, 0);
    s.(idCount := s.idCount + 1,
       info := s.info[s.idCount := Info(r, 0, false, |s.random|)],
       addrs := s.addrs[a.svc.net := s.idCount],
       random := s.random + [s.idCount])
  }

  lemma CreateNew(g: Geometry, info: Infos, table: map<Slot, int>, id: int, i: Info)
    requires NewSlotsOk(g, info, table) && RefsOk(info, table, {}) && id !in info && i.refCount == 0
    ensures NewSlotsOk(g, info[id := i], table) && RefsOk(info[id := i], table, {id})
  {
    assert RefSlots(table, id) == {};
  }

  lemma CreateCounts(info: Infos, id: int, i: Info)
    requires id !in info && !i.inTried
    ensures TriedIds(info[id := i]) == TriedIds(info) && NewIds(info[id := i]) == NewIds(info) + {id}
  {}

  lemma CreateKeeps(g: Geometry, s: State, a: Address, source: NetAddr)
    requires Consistent(g, s) && a.svc.net !in s.addrs
    ensures Weak(g, Create(s, a, source), {s.idCount}, 1)
  {
    hide AddrsOk, RandomOk, TriedOk, NewSlotsOk, RefsOk;
    var i := Create(s, a, source).info[s.idCount];
    CreateNew(g, s.info, s.newTable, s.idCount, i);
    CreateCounts(s.info, s.idCount, i);
    CreateRandom(s.info, s.random, s.idCount, i);
    CreateAddrs(s.info, s.addrs, s.idCount, i);
    CreateTried(g, s.info, s.triedTable, s.idCount, i);
  }

  lemma CreateRandom(info: Infos, random: seq<int>, id: int, i: Info)
    requires RandomOk(info, random) && id !in info && i.randomPos == |random|
    ensures RandomOk(info[id := i], random + [id])
  {}

  lemma CreateAddrs(info: Infos, addrs: map<NetAddr, int>, id: int, i: Info)
    requires AddrsOk(info, addrs) && id !in info && i.rec.svc.net !in addrs
    ensures AddrsOk(info[id := i], addrs[i.rec.svc.net := id])
  {}

  lemma CreateTried(g: Geometry, info: Infos, tried: map<Slot, int>, id: int, i: Info)
    requires TriedOk(g, info, tried) && id !in info && !i.inTried
    ensures TriedOk(g, info[id := i], tried)
  {}

  /** The asserts of Delete and of the SwapRandom inside it. */
  predicate CanDelete(s: State, id: int) {
    && id in s.info && !s.info[id].inTried && s.info[id].refCount == 0
    && CanSwap(s.info, s.random, s.info[id].randomPos, |s.random| - 1)
  }

  function Delete(s: State, id: int): State
    requires CanDelete(s, id)
  {
    PopLast(SwapRandom(s, s.info[id].randomPos, |s.random| - 1), id)
  }

  lemma Unreferenced(t: map<Slot, int>, id: int)
    requires |RefSlots(t, id)| == 0
    ensures forall sl | sl in t :: t[sl] != id
  {
    forall sl | sl in t ensures t[sl] != id {
      assert sl !in RefSlots(t, id);
    }
  }

  lemma RemoveNew(g: Geometry, info: Infos, table: map<Slot, int>, id: int, zero: set<int>)
    requires NewSlotsOk(g, info, table) && RefsOk(info, table, zero) && id in info && info[id].refCount == 0
    ensures NewSlotsOk(g, info - {id}, table) && RefsOk(info - {id}, table, zero - {id})
  {
    Unreferenced(table, id);
  }

  lemma RemoveTried(g: Geometry, info: Infos, tried: map<Slot, int>, id: int)
    requires TriedOk(g, info, tried) && id in info && !info[id].inTried
    ensures TriedOk(g, info - {id}, tried)
  {}

  lemma RemoveAddrs(info: Infos, addrs: map<NetAddr, int>, id: int)
    requires AddrsOk(info, addrs) && id in info
    ensures AddrsOk(info - {id}, addrs - {info[id].rec.svc.net})
  {}

  lemma RemoveRandom(info: Infos, random: seq<int>, id: int)
    requires RandomOk(info, random) && id in info && 0 < |random| && random[|random| - 1] == id
    ensures RandomOk(info - {id}, random[..|random| - 1])
  {}

  lemma RemoveCounts(info: Infos, id: int)
    requires id in info && !info[id].inTried
    ensures TriedIds(info - {id}) == TriedIds(info) && NewIds(info - {id}) == NewIds(info) - {id}
  {}

  function PopLast(t: State, id: int): State
    requires id in t.info && 0 < |t.random|
  {
    t.(random := t.random[..|t.random| - 1], addrs := t.addrs - {t.info[id].rec.svc.net}, info := t.info - {id},
        nNew := t.nNew - 1)
  }

  lemma PopLastKeeps(g: Geometry, t: State, id: int, zero: set<int>, off: int)
    requires Weak(g, t, zero, off) && id in t.info && !t.info[id].inTried && t.info[id].refCount == 0
    requires 0 < |t.random| && t.random[|t.random| - 1] == id
    ensures Weak(g, PopLast(t, id), zero - {id}, off)
  {
    RemoveNew(g, t.info, t.newTable, id, zero);
    RemoveTried(g, t.info, t.triedTable, id);
    RemoveAddrs(t.info, t.addrs, id);
    RemoveRandom(t.info, t.random, id);
    RemoveCounts(t.info, id);
  }

  lemma WeakRandom(g: Geometry, s: State, zero: set<int>, off: int)
    requires Weak(g, s, zero, off)
    ensures RandomOk(s.info, s.random)
  {}

  /** Deleting an unreferenced id keeps the conditions, and changes nothing else about the others. */
  lemma DeleteKeeps(g: Geometry, s: State, id: int, zero: set<int>, off: int)
    requires Weak(g, s, zero, off) && id in s.info && !s.info[id].inTried && s.info[id].refCount == 0
    ensures CanDelete(s, id) && Weak(g, Delete(s, id), zero - {id}, off)
    ensures AllAlike(Delete(s, id).info, s.info - {id})
  {
    hide Weak, SwapInfos, SwapOrder;
    WeakRandom(g, s, zero, off);
    var at, last := s.info[id].randomPos, |s.random| - 1;
    SwapOk(s.info, s.random, at, last);
    SwapRandomKeeps(g, s, at, last, zero, off);
    PopLastKeeps(g, SwapRandom(s, at, last), id, zero, off);
  }

  // -------------------------------------------------------- ClearNew, MakeTried

  /** Changing an info in place, keeping what the indexes depend on. */
  lemma TweakIndexes(info: Infos, addrs: map<NetAddr, int>, random: seq<int>, id: int, i: Info)
    requires AddrsOk(info, addrs) && RandomOk(info, random) && id in info
    requires i.rec.svc == info[id].rec.svc && i.randomPos == info[id].randomPos
    ensures AddrsOk(info[id := i], addrs) && RandomOk(info[id := i], random)
  {}

  lemma TweakTried(g: Geometry, info: Infos, tried: map<Slot, int>, id: int, i: Info)
    requires TriedOk(g, info, tried) && id in info && i.rec.svc == info[id].rec.svc && i.inTried == info[id].inTried
    ensures TriedOk(g, info[id := i], tried)
  {}

  lemma TweakNewSlots(g: Geometry, info: Infos, table: map<Slot, int>, id: int, i: Info)
    requires NewSlotsOk(g, info, table) && id in info && i.rec.svc == info[id].rec.svc && i.inTried == info[id].inTried
    ensures NewSlotsOk(g, info[id := i], table)
  {}

  function Drop(s: State, sl: Slot): State
    requires sl in s.newTable && s.newTable[sl] in s.info
  {
    var id := s.newTable[sl];
    s.(info := s.info[id := s.info[id].(refCount := s.info[id].refCount - 1)], newTable := s.newTable - {sl})
  }

  lemma DropRefs(info: Infos, table: map<Slot, int>, sl: Slot, zero: set<int>)
    requires RefsOk(info, table, zero) && sl in table && table[sl] in info
    ensures 0 < info[table[sl]].refCount
    ensures var id := table[sl]; RefsOk(info[id := info[id].(refCount := info[id].refCount - 1)], table - {sl},
        zero + {id})
  {
    var id := table[sl];
    assert RefSlots(table - {sl}, id) == RefSlots(table, id) - {sl};
    assert sl in RefSlots(table, id);
    forall k | k != id ensures RefSlots(table - {sl}, k) == RefSlots(table, k) {}
  }

  lemma DropKeeps(g: Geometry, s: State, sl: Slot, zero: set<int>, off: int)
    requires Weak(g, s, zero, off) && sl in s.newTable
    ensures s.newTable[sl] in s.info && !s.info[s.newTable[sl]].inTried && 0 < s.info[s.newTable[sl]].refCount
    ensures Weak(g, Drop(s, sl), zero + {s.newTable[sl]}, off)
  {
    var id := s.newTable[sl];
    var i := s.info[id].(refCount := s.info[id].refCount - 1);
    DropRefs(s.info, s.newTable, sl, zero);
    TweakIndexes(s.info, s.addrs, s.random, id, i);
    TweakTried(g, s.info, s.triedTable, id, i);
    TweakNewSlots(g, s.info, s.newTable, id, i);
    SameIdSets(s.info[id := i], s.info);
  }

  /** The asserts of ClearNew, and of the Delete it may call. */
  predicate CanClear(s: State, sl: Slot) {
    sl in s.newTable ==>
      && s.newTable[sl] in s.info && 0 < s.info[s.newTable[sl]].refCount
      && (s.info[s.newTable[sl]].refCount == 1 ==> CanDelete(Drop(s, sl), s.newTable[sl]))
  }

  function ClearNew(s: State, sl: Slot): State
    requires CanClear(s, sl)
  {
    if sl !in s.newTable then s else
      var id, t := s.newTable[sl], Drop(s, sl);
      if t.info[id].refCount == 0 then Delete(t, id) else t
  }

  /** Every info of `m` is the same peer, in the same state, as in `n`. */
  ghost predicate Inherits(m: Infos, n: Infos) {
    forall id | id in m :: id in n && m[id].rec == n[id].rec && m[id].inTried == n[id].inTried
  }

  predicate Holds(table: map<Slot, int>, sl: Slot, id: int) { sl in table && table[sl] == id }

  lemma WeakZero(g: Geometry, s: State, zero: set<int>, more: set<int>, off: int)
    requires Weak(g, s, zero + more, off)
    requires forall id | id in more && id in s.info :: 1 <= s.info[id].refCount
    ensures Weak(g, s, zero, off)
  {}

  lemma ClearNewKeeps(g: Geometry, s: State, sl: Slot, zero: set<int>, off: int)
    requires Weak(g, s, zero, off)
    requires forall id | id in zero && id in s.info :: s.info[id].refCount == 0
    ensures CanClear(s, sl)
    ensures var t := ClearNew(s, sl);
      && Weak(g, t, zero, off) && Inherits(t.info, s.info)
      && t == s.(info := t.info, addrs := t.addrs, random := t.random, newTable := s.newTable - {sl}, nNew := t.nNew)
      && (forall k | k in s.info && !Holds(s.newTable, sl, k) ::
           k in t.info && t.info[k].refCount == s.info[k].refCount)
  {
    hide Weak;
    if sl in s.newTable {
      DropKeeps(g, s, sl, zero, off);
      var id, t := s.newTable[sl], Drop(s, sl);
      if t.info[id].refCount == 0 {
        DeleteKeeps(g, t, id, zero + {id}, off);
        assert zero + {id} - {id} == zero;
      } else {
        WeakZero(g, t, zero, {id}, off);
      }
    } else {
      assert s.newTable - {sl} == s.newTable;
    }
  }

  /** Entering a reference to `id` into an empty slot of the new table. */
  function Reference(s: State, id: int, sl: Slot): State
    requires id in s.info
  {
    s.(info := s.info[id := s.info[id].(refCount := s.info[id].refCount + 1)], newTable := s.newTable[sl := id])
  }

  lemma ReferenceRefs(info: Infos, table: map<Slot, int>, id: int, sl: Slot, zero: set<int>)
    requires RefsOk(info, table, zero) && sl !in table && id in info && info[id].refCount < NEW_BUCKETS_PER_ADDRESS
    ensures RefsOk(info[id := info[id].(refCount := info[id].refCount + 1)], table[sl := id], zero - {id})
  {
    assert RefSlots(table[sl := id], id) == RefSlots(table, id) + {sl};
    forall k | k != id ensures RefSlots(table[sl := id], k) == RefSlots(table, k) {}
  }

  lemma ReferenceNewSlots(g: Geometry, info: Infos, table: map<Slot, int>, id: int, sl: Slot)
    requires NewSlotsOk(g, info, table) && id in info && !info[id].inTried
    requires sl.bucket < g.newBuckets && sl.pos == g.position(info[id].rec.svc, true, sl.bucket)
    ensures NewSlotsOk(g, info, table[sl := id])
  {}

  lemma ReferenceKeeps(g: Geometry, s: State, id: int, sl: Slot, zero: set<int>, off: int)
    requires Weak(g, s, zero, off) && sl !in s.newTable && id in s.info && !s.info[id].inTried
    requires s.info[id].refCount < NEW_BUCKETS_PER_ADDRESS
    requires sl.bucket < g.newBuckets && sl.pos == g.position(s.info[id].rec.svc, true, sl.bucket)
    ensures Weak(g, Reference(s, id, sl), zero - {id}, off)
  {
    hide AddrsOk, RandomOk, TriedOk, NewSlotsOk, RefsOk;
    var i := s.info[id].(refCount := s.info[id].refCount + 1);
    ReferenceRefs(s.info, s.newTable, id, sl, zero);
    TweakIndexes(s.info, s.addrs, s.random, id, i);
    TweakTried(g, s.info, s.triedTable, id, i);
    ReferenceNewSlots(g, s.info, s.newTable, id, sl);
    TweakNewSlots(g, s.info, s.newTable[sl := id], id, i);
    SameIdSets(s.info[id := i], s.info);
  }

  lemma CountOne(g: Geometry, s: State, zero: set<int>, off: int)
    requires Weak(g, s, zero, off)
    ensures Weak(g, s.(nNew := s.nNew + 1), zero, off - 1)
  {}

  /** The result of the bucket scan at the start of MakeTried, with the decrement of nNew. */
  function Unlist(s: State, id: int): State
    requires id in s.info
  {
    s.(info := s.info[id := s.info[id].(refCount := s.info[id].refCount - |RefSlots(s.newTable, id)|)],
       newTable := s.newTable - RefSlots(s.newTable, id),
       nNew := s.nNew - 1)
  }

  lemma UnlistRefs(info: Infos, table: map<Slot, int>, id: int)
    requires RefsOk(info, table, {}) && id in info
    ensures RefsOk(info[id := info[id].(refCount := 0)], table - RefSlots(table, id), {id})
  {
    var rest := table - RefSlots(table, id);
    assert RefSlots(rest, id) == {};
    forall k | k != id ensures RefSlots(rest, k) == RefSlots(table, k) {}
  }

  lemma UnlistKeeps(g: Geometry, s: State, id: int)
    requires Consistent(g, s) && id in s.info && !s.info[id].inTried
    ensures Weak(g, Unlist(s, id), {id}, 1) && Unlist(s, id).triedTable == s.triedTable
    ensures id in Unlist(s, id).info && Unlist(s, id).info[id] == s.info[id].(refCount := 0)
  {
    hide AddrsOk, RandomOk, TriedOk;
    var i := s.info[id].(refCount := 0);
    UnlistRefs(s.info, s.newTable, id);
    TweakIndexes(s.info, s.addrs, s.random, id, i);
    TweakTried(g, s.info, s.triedTable, id, i);
    TweakNewSlots(g, s.info, s.newTable, id, i);
    SameIdSets(s.info[id := i], s.info);
    assert Unlist(s, id).info == s.info[id := i];
  }

  /** Taking the occupant of a tried slot out of the tried set. */
  function Demote(s: State, sl: Slot): State
    requires sl in s.triedTable && s.triedTable[sl] in s.info
  {
    var id := s.triedTable[sl];
    s.(info := s.info[id := s.info[id].(inTried := false)], triedTable := s.triedTable - {sl}, nTried := s.nTried - 1)
  }

  lemma DemoteTables(g: Geometry, info: Infos, tried: map<Slot, int>, table: map<Slot, int>, sl: Slot, zero: set<int>)
    requires TriedOk(g, info, tried) && NewSlotsOk(g, info, table) && RefsOk(info, table, zero) && sl in tried
    ensures tried[sl] in info && info[tried[sl]].inTried
    ensures var id := tried[sl]; var m := info[id := info[id].(inTried := false)];
      && TriedOk(g, m, tried - {sl}) && NewSlotsOk(g, m, table) && RefsOk(m, table, zero + {id})
      && TriedIds(m) == TriedIds(info) - {id} && NewIds(m) == NewIds(info) + {id}
      && info[id].refCount == 0
  {
    var id := tried[sl];
    assert RefSlots(table, id) == {};
  }

  lemma DemoteKeeps(g: Geometry, s: State, sl: Slot, zero: set<int>, off: int)
    requires Weak(g, s, zero, off) && sl in s.triedTable
    ensures s.triedTable[sl] in s.info && s.info[s.triedTable[sl]].refCount == 0 && s.info[s.triedTable[sl]].inTried
    ensures Weak(g, Demote(s, sl), zero + {s.triedTable[sl]}, off + 1)
  {
    hide AddrsOk, RandomOk, TriedOk, NewSlotsOk, RefsOk;
    var id := s.triedTable[sl];
    DemoteTables(g, s.info, s.triedTable, s.newTable, sl, zero);
    TweakIndexes(s.info, s.addrs, s.random, id, s.info[id].(inTried := false));
  }

  /** Entering an unlisted id into its empty tried slot. */
  function Promote(g: Geometry, s: State, id: int): State
    requires id in s.info
  {
    s.(info := s.info[id := s.info[id].(inTried := true)],
       triedTable := s.triedTable[g.TriedSlot(s.info[id].rec.svc) := id],
       nTried := s.nTried + 1)
  }

  lemma PromoteTables(g: Geometry, info: Infos, tried: map<Slot, int>, table: map<Slot, int>, id: int)
    requires TriedOk(g, info, tried) && NewSlotsOk(g, info, table) && RefsOk(info, table, {id})
    requires id in info && !info[id].inTried && info[id].refCount == 0 && g.TriedSlot(info[id].rec.svc) !in tried
    ensures var m := info[id := info[id].(inTried := true)];
      && TriedOk(g, m, tried[g.TriedSlot(info[id].rec.svc) := id]) && NewSlotsOk(g, m, table) && RefsOk(m, table, {})
      && TriedIds(m) == TriedIds(info) + {id} && NewIds(m) == NewIds(info) - {id}
  {
    Unreferenced(table, id);
  }

  lemma PromoteKeeps(g: Geometry, s: State, id: int)
    requires Weak(g, s, {id}, 1) && id in s.info && !s.info[id].inTried && s.info[id].refCount == 0
    requires s.info[id].rec.lastSuccess != 0 && g.TriedSlot(s.info[id].rec.svc) !in s.triedTable
    ensures Consistent(g, Promote(g, s, id))
  {
    PromoteTables(g, s.info, s.triedTable, s.newTable, id);
    TweakIndexes(s.info, s.addrs, s.random, id, s.info[id].(inTried := true));
  }

  // Moving the occupant `old` of a tried slot back to the new table.

  predicate CanEvict(g: Geometry, s: State, sl: Slot) {
    && sl in s.triedTable && s.triedTable[sl] in s.info
    && CanClear(Demote(s, sl), HomeSlot(g, s, sl))
    && s.triedTable[sl] in ClearNew(Demote(s, sl), HomeSlot(g, s, sl)).info
  }

  /** The slot of the new table that the occupant of a tried slot falls back to. */
  function HomeSlot(g: Geometry, s: State, sl: Slot): Slot
    requires sl in s.triedTable && s.triedTable[sl] in s.info
  {
    var r := s.info[s.triedTable[sl]].rec;
    g.NewSlot(r.svc, r.source)
  }

  function Evict(g: Geometry, s: State, sl: Slot): State
    requires CanEvict(g, s, sl)
  {
    var t := Reference(ClearNew(Demote(s, sl), HomeSlot(g, s, sl)), s.triedTable[sl], HomeSlot(g, s, sl));
    t.(nNew := t.nNew + 1)
  }

  lemma EvictKeeps(g: Geometry, s: State, sl: Slot, id: int)
    requires g.InRange() && Weak(g, s, {id}, 1) && sl in s.triedTable
    requires id in s.info && !s.info[id].inTried && s.info[id].refCount == 0
    ensures CanEvict(g, s, sl) && ClearNew(Demote(s, sl), HomeSlot(g, s, sl)).info[s.triedTable[sl]].refCount == 0
    ensures var t := Evict(g, s, sl);
      && Weak(g, t, {id}, 1) && id in t.info && !t.info[id].inTried && t.info[id].refCount == 0
      && t.triedTable == s.triedTable - {sl}
      && t.newTable == s.newTable[HomeSlot(g, s, sl) := s.triedTable[sl]]
      && (forall k | k in t.info :: k in s.info && t.info[k].rec == s.info[k].rec)
      && t == s.(info := t.info, addrs := t.addrs, random := t.random, triedTable := t.triedTable,
           newTable := t.newTable, nTried := t.nTried, nNew := t.nNew)
  {
    hide Weak;
    DemoteKeeps(g, s, sl, {id}, 1);
    var out, home := s.triedTable[sl], HomeSlot(g, s, sl);
    assert {id} + {out} == {id, out};
    var d := Demote(s, sl);
    ClearNewKeeps(g, d, home, {id, out}, 2);
    var e := ClearNew(d, home);
    ReferenceKeeps(g, e, out, home, {id, out}, 2);
    assert {id, out} - {out} == {id};
    CountOne(g, Reference(e, out, home), {id}, 2);
  }

  predicate CanMakeTried(g: Geometry, s: State, id: int) {
    && id in s.info && s.info[id].refCount == |RefSlots(s.newTable, id)|
    && (g.TriedSlot(s.info[id].rec.svc) in s.triedTable ==>
          CanEvict(g, Unlist(s, id), g.TriedSlot(s.info[id].rec.svc))
              && id in Evict(g, Unlist(s, id), g.TriedSlot(s.info[id].rec.svc)).info)
  }

  function MakeTried(g: Geometry, s: State, id: int): State
    requires CanMakeTried(g, s, id)
  {
    var u, sl := Unlist(s, id), g.TriedSlot(s.info[id].rec.svc);
    Promote(g, if sl in s.triedTable then Evict(g, u, sl) else u, id)
  }

  /** The new table after `id` left it for the tried slot `sl`. */
  function NewTableAfterMove(g: Geometry, s: State, id: int, sl: Slot): map<Slot, int>
    requires sl in s.triedTable ==> s.triedTable[sl] in s.info
  {
    var rest := s.newTable - RefSlots(s.newTable, id);
    if sl in s.triedTable then rest[HomeSlot(g, s, sl) := s.triedTable[sl]] else rest
  }

  lemma MakeTriedKeeps(g: Geometry, s: State, id: int)
    requires g.InRange() && Consistent(g, s) && id in s.info && !s.info[id].inTried && s.info[id].rec.lastSuccess != 0
    ensures CanMakeTried(g, s, id)
    ensures var t, sl := MakeTried(g, s, id), g.TriedSlot(s.info[id].rec.svc);
      && Consistent(g, t)
      && t.triedTable == s.triedTable[sl := id]
      && t.newTable == NewTableAfterMove(g, s, id, sl)
      && (forall k | k in t.info :: k in s.info && t.info[k].rec == s.info[k].rec)
      && t == s.(info := t.info, addrs := t.addrs, random := t.random, triedTable := t.triedTable,
           newTable := t.newTable, nTried := t.nTried, nNew := t.nNew)
  {
    hide Weak;
    UnlistKeeps(g, s, id);
    var u, sl := Unlist(s, id), g.TriedSlot(s.info[id].rec.svc);
    if sl in s.triedTable {
      EvictKeeps(g, u, sl, id);
      PromoteKeeps(g, Evict(g, u, sl), id);
    } else {
      PromoteKeeps(g, u, id);
    }
  }
}
