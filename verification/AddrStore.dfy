/**
 How the address manager is saved and loaded (Serialize and Unserialize of
 src/addrman.h), as values. Loading what a consistent manager saved loses no entry
 and gives a consistent manager again.
 */
module AddrStore {
  import opened AddrTypes
  import opened AddrState
  import opened Powers
  import opened Basics

  /** The stream: format, key, counts, entries, and for each new bucket the indices of its entries. */
  datatype Stored = Stored(
    format: nat, keySize: nat, key: nat, nNew: int, nTried: int, nUBuckets: nat,
    newInfos: seq<Record>, triedInfos: seq<Record>, buckets: seq<seq<int>>, asmapVersion: nat)

  const BIT30: nat := 0x4000_0000

  /** x ^ (1 << 30) */
  function FlipBit30(x: nat): nat { if x / BIT30 % 2 == 1 then x - BIT30 else x + BIT30 }

  lemma FlipTwice(x: nat)
    ensures FlipBit30(FlipBit30(x)) == x
  {}

  /** The fields of an entry that are written: the times of attempts stay in memory only. */
  function Persist(r: Record): Record { r.(lastTry := 0, lastCountAttempt := 0) }

  // ---------------------------------------------------------------------- saving

  /** An entry is written with the new ones when it is referenced, and with the tried ones when it is in tried. */
  predicate Picked(i: Info, tried: bool) { if tried then i.inTried else i.refCount != 0 }

  /** The ids below n that are written, in the order of mapInfo. */
  function IdList(info: Infos, n: nat, tried: bool): (r: seq<int>)
    ensures forall k | 0 <= k < |r| :: 0 <= r[k] < n && r[k] in info && Picked(info[r[k]], tried)
  {
    if n == 0 then []
    else IdList(info, n - 1, tried) + (if n - 1 in info && Picked(info[n - 1], tried) then [n - 1] else [])
  }

  function Records(info: Infos, ids: seq<int>): (r: seq<Record>)
    requires forall k | 0 <= k < |ids| :: ids[k] in info
    ensures |r| == |ids| && forall k | 0 <= k < |ids| :: r[k] == Persist(info[ids[k]].rec)
  {
    seq(|ids|, k requires 0 <= k < |ids| => Persist(info[ids[k]].rec))
  }

  /** mapUnkIds: the index under which an id is written. */
  function Rank(info: Infos, id: int): nat { if id < 0 then 0 else |IdList(info, id, false)| }

  /** The indices written for the first n positions of a bucket. */
  function Indices(info: Infos, table: map<Slot, int>, b: nat, n: nat): seq<int> {
    if n == 0 then []
    else Indices(info, table, b, n - 1) + (if Slot(b, n - 1) in table then [Rank(info, table[Slot(b, n - 1)])] else [])
  }

  function AllIndices(info: Infos, table: map<Slot, int>, buckets: nat, size: nat): (r: seq<seq<int>>)
    ensures |r| == buckets && forall b | 0 <= b < buckets :: r[b] == Indices(info, table, b, size)
  {
    seq(buckets, b requires 0 <= b < buckets => Indices(info, table, b, size))
  }

  function Save(g: Geometry, s: State, asmapVersion: nat): Stored {
    Stored(3, 32, s.key, s.nNew, s.nTried, FlipBit30(g.newBuckets),
           Records(s.info, IdList(s.info, s.idCount, false)), Records(s.info, IdList(s.info, s.idCount, true)),
           AllIndices(s.info, s.newTable, g.newBuckets, g.bucketSize), asmapVersion)
  }

  // --------------------------------------------------------------------- id lists

  lemma {:induction false} IdListMember(info: Infos, n: nat, tried: bool, id: int)
    requires id in info && 0 <= id < n && Picked(info[id], tried)
    ensures var k := |IdList(info, id, tried)|; k < |IdList(info, n, tried)| && IdList(info, n, tried)[k] == id
  {
    if n > id + 1 { IdListMember(info, n - 1, tried, id); }
  }

  predicate Ascending(ids: seq<int>) { forall j, k | 0 <= j < k < |ids| :: ids[j] < ids[k] }

  lemma {:induction false} IdListAscending(info: Infos, n: nat, tried: bool)
    ensures Ascending(IdList(info, n, tried))
  {
    if n > 0 {
      IdListAscending(info, n - 1, tried);
      var front, r := IdList(info, n - 1, tried), IdList(info, n, tried);
      forall j, k | 0 <= j < k < |r| ensures r[j] < r[k] {
        if k < |front| { assert front[j] < front[k]; }
      }
    }
  }

  /** The set of the ids in a list. */
  function Elements(ids: seq<int>): set<int> { set x | x in ids }

  lemma {:induction false} AscendingCount(ids: seq<int>)
    requires Ascending(ids)
    ensures |Elements(ids)| == |ids|
  {
    if ids != [] {
      var n := |ids| - 1;
      AscendingCount(ids[..n]);
      assert Elements(ids) == Elements(ids[..n]) + {ids[n]};
      assert ids[n] !in Elements(ids[..n]);
    }
  }

  /** In a consistent manager the lists have the lengths that the counters say. */
  lemma ListLengths(g: Geometry, s: State)
    requires Consistent(g, s)
    ensures |IdList(s.info, s.idCount, false)| == s.nNew && |IdList(s.info, s.idCount, true)| == s.nTried
  {
    ListElements(g, s, false);
    ListElements(g, s, true);
    IdListAscending(s.info, s.idCount, false);
    IdListAscending(s.info, s.idCount, true);
    AscendingCount(IdList(s.info, s.idCount, false));
    AscendingCount(IdList(s.info, s.idCount, true));
  }

  /** Outside tried means referenced. */
  lemma PickedExactly(g: Geometry, s: State, id: int)
    requires Consistent(g, s) && id in s.info
    ensures Picked(s.info[id], true) <==> s.info[id].inTried
    ensures Picked(s.info[id], false) <==> !s.info[id].inTried
  {
    if s.info[id].inTried {
      assert RefSlots(s.newTable, id) == {};
    }
  }

  lemma ListElements(g: Geometry, s: State, tried: bool)
    requires Consistent(g, s)
    ensures Elements(IdList(s.info, s.idCount, tried)) == if tried then TriedIds(s.info) else NewIds(s.info)
  {
    hide Weak;
    ConsistentIds(g, s);
    var ids := IdList(s.info, s.idCount, tried);
    forall id | id in s.info ensures id in ids <==> s.info[id].inTried == tried {
      PickedExactly(g, s, id);
      if s.info[id].inTried == tried { IdListMember(s.info, s.idCount, tried, id); }
    }
    assert forall id | id in ids :: id in s.info;
  }

  lemma ConsistentIds(g: Geometry, s: State)
    requires Consistent(g, s)
    ensures forall id | id in s.info :: 0 <= id < s.idCount
  {}

  // ------------------------------------------------------------ the writing loops

  /** What the loop over mapInfo has written below id n. */
  function Written(info: Infos, n: nat, tried: bool): seq<Record> { Records(info, IdList(info, n, tried)) }

  ghost predicate RankedBelow(info: Infos, index: map<int, nat>, n: nat) {
    forall id | id in info && 0 <= id < n :: id in index && index[id] == Rank(info, id)
  }

  ghost predicate Ranked(info: Infos, index: map<int, nat>) {
    forall id | id in info :: id in index && index[id] == Rank(info, id)
  }

  lemma WrittenStart(info: Infos, tried: bool)
    ensures Written(info, 0, tried) == [] && RankedBelow(info, map[], 0)
  {}

  lemma WrittenNext(info: Infos, n: nat, tried: bool)
    ensures Written(info, n + 1, tried) ==
            Written(info, n, tried) + if n in info && Picked(info[n], tried) then [Persist(info[n].rec)] else []
  {
    hide Picked, Persist;
  }

  lemma RankedNext(info: Infos, index: map<int, nat>, n: nat)
    requires RankedBelow(info, index, n)
    ensures RankedBelow(info, if n in info then index[n := |Written(info, n, false)|] else index, n + 1)
  {
    hide IdList;
  }

  lemma AllRanked(g: Geometry, s: State, index: map<int, nat>)
    requires Consistent(g, s) && RankedBelow(s.info, index, s.idCount)
    ensures Ranked(s.info, index)
  {
    hide Rank;
    ConsistentIds(g, s);
  }

  /** The asserts on the two counts. */
  lemma WrittenRoom(g: Geometry, s: State, tried: bool, id: nat)
    requires Consistent(g, s) && id in s.info && Picked(s.info[id], tried)
    ensures |Written(s.info, id, tried)| != if tried then s.nTried else s.nNew
  {
    hide Weak, Picked, IdList;
    ListLengths(g, s);
    ConsistentIds(g, s);
    IdListMember(s.info, s.idCount, tried, id);
  }

  // --------------------------------------------------------------------- loading

  /** What Unserialize builds before it fills the new table. */
  datatype Core = Core(info: Infos, addrs: map<NetAddr, int>, random: seq<int>, tried: map<Slot, int>, ids: nat,
      lost: nat)

  /** The first n new entries, numbered from 0. */
  function LoadNew(infos: seq<Record>, n: nat): (c: Core)
    requires n <= |infos|
    ensures c.ids == n
  {
    if n == 0 then Core(map[], map[], [], map[], 0, 0)
    else
      var c := LoadNew(infos, n - 1);
      Core(c.info[n - 1 := Info(infos[n - 1], 0, false, |c.random|)], c.addrs[infos[n - 1].svc.net := n - 1],
          c.random + [n - 1], c.tried, n, 0)
  }

  function AddTried(g: Geometry, c: Core, r: Record): Core {
    var sl := g.TriedSlot(r.svc);
    if sl in c.tried then c.(lost := c.lost + 1)
    else Core(c.info[c.ids := Info(r, 0, true, |c.random|)], c.addrs[r.svc.net := c.ids], c.random + [c.ids],
        c.tried[sl := c.ids], c.ids + 1, c.lost)
  }

  /** The first n tried entries; one whose slot is taken is lost. */
  function LoadTried(g: Geometry, c: Core, infos: seq<Record>, n: nat): Core
    requires n <= |infos|
  {
    if n == 0 then c else AddTried(g, LoadTried(g, c, infos, n - 1), infos[n - 1])
  }

  /** entryToBucket after the first n indices of bucket b. */
  function NoteIndices(m: map<int, nat>, list: seq<int>, n: nat, b: nat, nNew: int): map<int, nat>
    requires n <= |list|
  {
    if n == 0 then m
    else
      var m' := NoteIndices(m, list, n - 1, b, nNew);
      if 0 <= list[n - 1] < nNew then m'[list[n - 1] := b] else m'
  }

  function NoteBuckets(buckets: seq<seq<int>>, b: nat, nNew: int): map<int, nat>
    requires b <= |buckets|
  {
    if b == 0 then map[] else NoteIndices(NoteBuckets(buckets, b - 1, nNew), buckets[b - 1], |buckets[b - 1]|, b - 1,
        nNew)
  }

  ghost predicate ValuesBelow(m: map<int, nat>, bound: nat) { forall k | k in m :: m[k] < bound }

  lemma {:induction false} IndexInRange(m: map<int, nat>, list: seq<int>, n: nat, b: nat, nNew: int, bound: nat)
    requires n <= |list| && b < bound && ValuesBelow(m, bound)
    ensures ValuesBelow(NoteIndices(m, list, n, b, nNew), bound)
  {
    if n > 0 { IndexInRange(m, list, n - 1, b, nNew, bound); }
  }

  lemma {:induction false} NotedInRange(buckets: seq<seq<int>>, b: nat, nNew: int)
    requires b <= |buckets|
    ensures ValuesBelow(NoteBuckets(buckets, b, nNew), |buckets|)
  {
    if b > 0 {
      NotedInRange(buckets, b - 1, nNew);
      IndexInRange(NoteBuckets(buckets, b - 1, nNew), buckets[b - 1], |buckets[b - 1]|, b - 1, nNew, |buckets|);
    }
  }

  /** entryToBucket[n], which is 0 for an entry that is in no bucket. */
  function NotedBucket(m: map<int, nat>, n: int): nat { if n in m then m[n] else 0 }

  datatype Shelf = Shelf(info: Infos, table: map<Slot, int>)

  function Put(h: Shelf, n: int, sl: Slot): Shelf
    requires n in h.info
  {
    Shelf(h.info[n := h.info[n].(refCount := h.info[n].refCount + 1)], h.table[sl := n])
  }

  /**
   One new entry goes to the slot it had, if that can be used, and else to the slot its
   source selects, if that is free.
   */
  function Place(g: Geometry, usable: bool, bucket: nat, h: Shelf, n: int): Shelf
    requires n in h.info
  {
    var svc := h.info[n].rec.svc;
    var was := Slot(bucket, g.position(svc, true, bucket));
    var home := g.NewSlot(svc, h.info[n].rec.source);
    if usable && was !in h.table && h.info[n].refCount < NEW_BUCKETS_PER_ADDRESS then Put(h, n, was)
    else if home !in h.table then Put(h, n, home)
    else h
  }

  function PlaceAll(g: Geometry, usable: bool, m: map<int, nat>, h: Shelf, n: nat): (r: Shelf)
    requires forall k | 0 <= k < n :: k in h.info
    ensures r.info.Keys == h.info.Keys
  {
    if n == 0 then h
    else
      var h' := PlaceAll(g, usable, m, h, n - 1);
      Place(g, usable, NotedBucket(m, n - 1), h', n - 1)
  }

  predicate Stray(info: Infos, k: int) { k in info && !info[k].inTried && info[k].refCount == 0 }

  /** Deletes the unreferenced new entries from id k up to n. */
  ghost function Prune(s: State, k: nat, n: nat): State
    requires RandomOk(s.info, s.random)
    decreases n - k
  {
    if k >= n then s
    else if Stray(s.info, k) then
      DeleteRandom(s, k);
      Prune(Delete(s, k), k + 1, n)
    else Prune(s, k + 1, n)
  }

  lemma DeleteRandom(s: State, id: int)
    requires RandomOk(s.info, s.random) && Stray(s.info, id)
    ensures CanDelete(s, id) && RandomOk(Delete(s, id).info, Delete(s, id).random)
  {
    hide SwapInfos, SwapOrder;
    var at, last := s.info[id].randomPos, |s.random| - 1;
    SwapOk(s.info, s.random, at, last);
    RemoveRandom(SwapInfos(s.info, s.random, at, last), SwapOrder(s.random, at, last), id);
  }

  /** Unserialize gives up before it reads any entry. */
  predicate Refused(g: Geometry, st: Stored) {
    st.format > 3 || st.keySize != 32 || st.nNew > g.newBuckets * g.bucketSize
        || st.nTried > g.triedBuckets * g.bucketSize
  }

  function Size(n: int): nat { if n < 0 then 0 else n }

  function BucketCount(st: Stored): nat { if st.format >= 1 then FlipBit30(st.nUBuckets) else st.nUBuckets }

  /** Everything the counts announce is in the stream. */
  predicate Complete(st: Stored) {
    0 <= st.nNew == |st.newInfos| && |st.triedInfos| == Size(st.nTried) && |st.buckets| == BucketCount(st)
  }

  function Loaded(g: Geometry, st: Stored): Core
    requires Complete(st)
  {
    LoadTried(g, LoadNew(st.newInfos, |st.newInfos|), st.triedInfos, |st.triedInfos|)
  }

  predicate Usable(g: Geometry, st: Stored, asmapVersion: nat) {
    st.format >= 2 && BucketCount(st) == g.newBuckets && asmapVersion == st.asmapVersion
  }

  /** The manager before unreferenced entries are pruned. */
  function Shelved(g: Geometry, st: Stored, asmapVersion: nat, collisions: set<int>): State
    requires Complete(st)
  {
    var c := Loaded(g, st);
    LoadedIds(g, st);
    var h := PlaceAll(g, Usable(g, st, asmapVersion), NoteBuckets(st.buckets, |st.buckets|, st.nNew),
        Shelf(c.info, map[]), |st.newInfos|);
    State(st.key, c.ids, h.info, c.addrs, c.random, c.tried, st.nTried - c.lost, h.table, st.nNew, 1, collisions)
  }

  lemma {:induction false} NewIdsLoaded(infos: seq<Record>, n: nat)
    requires n <= |infos|
    ensures var c := LoadNew(infos, n);
      RandomOk(c.info, c.random) && |c.random| == n && forall k :: k in c.info <==> 0 <= k < n
  {
    if n > 0 {
      NewIdsLoaded(infos, n - 1);
      var c := LoadNew(infos, n - 1);
      CreateRandom(c.info, c.random, n - 1, Info(infos[n - 1], 0, false, |c.random|));
    }
  }

  lemma {:induction false} TriedIdsLoaded(g: Geometry, c: Core, infos: seq<Record>, n: nat)
    requires n <= |infos| && RandomOk(c.info, c.random) && forall k :: k in c.info <==> 0 <= k < c.ids
    ensures var d := LoadTried(g, c, infos, n);
      RandomOk(d.info, d.random) && c.ids <= d.ids && forall k :: k in d.info <==> 0 <= k < d.ids
  {
    if n > 0 {
      hide RandomOk;
      TriedIdsLoaded(g, c, infos, n - 1);
      var d := LoadTried(g, c, infos, n - 1);
      CreateRandom(d.info, d.random, d.ids, Info(infos[n - 1], 0, true, |d.random|));
    }
  }

  lemma LoadedIds(g: Geometry, st: Stored)
    requires Complete(st)
    ensures var c := Loaded(g, st);
      RandomOk(c.info, c.random) && |st.newInfos| <= c.ids && forall k :: k in c.info <==> 0 <= k < c.ids
  {
    hide RandomOk, LoadNew, LoadTried;
    NewIdsLoaded(st.newInfos, |st.newInfos|);
    TriedIdsLoaded(g, LoadNew(st.newInfos, |st.newInfos|), st.triedInfos, |st.triedInfos|);
  }

  // ------------------------------------------------------------- what comes back

  /** The ids of s in the order in which they are loaded again. */
  function Sources(s: State): (r: seq<int>)
    ensures forall k | 0 <= k < |r| :: r[k] in s.info
  {
    IdList(s.info, s.idCount, false) + IdList(s.info, s.idCount, true)
  }

  ghost predicate Injective(src: seq<int>) { forall j, k | 0 <= j < k < |src| :: src[j] != src[k] }

  lemma SourcesInjective(g: Geometry, s: State)
    requires Consistent(g, s)
    ensures Injective(Sources(s))
    ensures forall k | 0 <= k < |Sources(s)| ::
        s.info[Sources(s)[k]].inTried <==> |IdList(s.info, s.idCount, false)| <= k
  {
    hide Weak;
    IdListAscending(s.info, s.idCount, false);
    IdListAscending(s.info, s.idCount, true);
    var news, olds, src := IdList(s.info, s.idCount, false), IdList(s.info, s.idCount, true), Sources(s);
    forall k | 0 <= k < |src| ensures s.info[src[k]].inTried <==> |news| <= k { PickedExactly(g, s, src[k]); }
    forall j, k | 0 <= j < k < |src| ensures src[j] != src[k] {
      if k < |news| {
        assert news[j] < news[k];
      } else if |news| <= j {
        assert olds[j - |news|] < olds[k - |news|];
      } else {
        assert s.info[src[k]].inTried && !s.info[src[j]].inTried;
      }
    }
  }

  /** The first m sources, copied. */
  ghost predicate Copied(s: State, src: seq<int>, info: Infos, m: nat) {
    && m <= |src| && (forall k | 0 <= k < |src| :: src[k] in s.info)
    && (forall k :: k in info <==> 0 <= k < m)
    && (forall k | 0 <= k < m :: info[k] == Info(Persist(s.info[src[k]].rec), 0, s.info[src[k]].inTried, k))
  }

  /** Copies of different entries have different addresses. */
  lemma CopiedFresh(s: State, src: seq<int>, info: Infos, addrs: map<NetAddr, int>, m: nat)
    requires Copied(s, src, info, m) && AddrsOk(s.info, s.addrs) && AddrsOk(info, addrs) && Injective(src) && m < |src|
    ensures s.info[src[m]].rec.svc.net !in addrs
  {
    var a := s.info[src[m]].rec.svc.net;
    if a in addrs {
      var k := addrs[a];
    }
  }

  lemma CopiedNext(s: State, src: seq<int>, info: Infos, m: nat)
    requires Copied(s, src, info, m) && m < |src|
    ensures Copied(s, src, info[m := Info(Persist(s.info[src[m]].rec), 0, s.info[src[m]].inTried, m)], m + 1)
  {}

  lemma {:induction false} NewCopied(s: State, src: seq<int>, infos: seq<Record>, n: nat)
    requires AddrsOk(s.info, s.addrs) && Injective(src) && n <= |infos| <= |src|
    requires forall k | 0 <= k < |src| :: src[k] in s.info
    requires forall k | 0 <= k < |infos| :: infos[k] == Persist(s.info[src[k]].rec) && !s.info[src[k]].inTried
    ensures var c := LoadNew(infos, n);
      Copied(s, src, c.info, n) && AddrsOk(c.info, c.addrs) && |c.random| == n && c.tried == map[] && c.lost == 0
  {
    hide AddrsOk, Copied;
    if n > 0 {
      NewCopied(s, src, infos, n - 1);
      var c := LoadNew(infos, n - 1);
      CopiedFresh(s, src, c.info, c.addrs, n - 1);
      CopiedNext(s, src, c.info, n - 1);
      CopiedKeys(s, src, c.info, n - 1);
      CreateAddrs(c.info, c.addrs, n - 1, Info(infos[n - 1], 0, false, n - 1));
    } else {
      NothingCopied(s, src);
    }
  }

  lemma CopiedKeys(s: State, src: seq<int>, info: Infos, m: nat)
    requires Copied(s, src, info, m)
    ensures m !in info && m <= |src|
  {}

  lemma NothingCopied(s: State, src: seq<int>)
    requires forall k | 0 <= k < |src| :: src[k] in s.info
    ensures Copied(s, src, map[], 0) && AddrsOk(map[], map[])
  {}

  /** Tried entries do not meet in a slot. */
  lemma SlotFree(g: Geometry, s: State, src: seq<int>, info: Infos, tried: map<Slot, int>, m: nat)
    requires TriedOk(g, s.info, s.triedTable) && TriedOk(g, info, tried) && Copied(s, src, info, m) && Injective(src)
    requires m < |src| && s.info[src[m]].inTried
    ensures g.TriedSlot(s.info[src[m]].rec.svc) !in tried
  {
    var sl := g.TriedSlot(s.info[src[m]].rec.svc);
    if sl in tried {
      var k := tried[sl];
    }
  }

  lemma TriedNext(g: Geometry, info: Infos, tried: map<Slot, int>, id: int, i: Info)
    requires TriedOk(g, info, tried) && id !in info && i.inTried && g.TriedSlot(i.rec.svc) !in tried
    ensures TriedOk(g, info[id := i], tried[g.TriedSlot(i.rec.svc) := id])
  {
    var now := tried[g.TriedSlot(i.rec.svc) := id];
    forall sl | sl in now ensures var k := now[sl];
        k in info[id := i] && info[id := i][k].inTried && g.TriedSlot(info[id := i][k].rec.svc) == sl {
      if sl != g.TriedSlot(i.rec.svc) { assert tried[sl] in info; }
    }
  }

  ghost predicate TriedCopied(g: Geometry, s: State, src: seq<int>, c: Core, m: nat) {
    && Copied(s, src, c.info, m) && AddrsOk(c.info, c.addrs) && TriedOk(g, c.info, c.tried)
    && |c.random| == m && c.ids == m && c.lost == 0
  }

  lemma TriedCopiedNext(g: Geometry, s: State, src: seq<int>, c: Core, m: nat, r: Record)
    requires TriedCopied(g, s, src, c, m) && m < |src| && s.info[src[m]].inTried && r == Persist(s.info[src[m]].rec)
    requires AddrsOk(s.info, s.addrs) && TriedOk(g, s.info, s.triedTable) && Injective(src)
    ensures TriedCopied(g, s, src, AddTried(g, c, r), m + 1)
  {
    hide AddrsOk, Copied, TriedOk;
    var i := Info(r, 0, true, m);
    SlotFree(g, s, src, c.info, c.tried, m);
    CopiedFresh(s, src, c.info, c.addrs, m);
    CopiedNext(s, src, c.info, m);
    CopiedKeys(s, src, c.info, m);
    CreateAddrs(c.info, c.addrs, m, i);
    TriedNext(g, c.info, c.tried, m, i);
  }

  lemma {:induction false} AllCopied(g: Geometry, s: State, src: seq<int>, c: Core, infos: seq<Record>, n: nat)
    requires AddrsOk(s.info, s.addrs) && TriedOk(g, s.info, s.triedTable) && Injective(src)
    requires n <= |infos| && c.ids + |infos| == |src| && TriedCopied(g, s, src, c, c.ids)
    requires forall k | 0 <= k < |src| :: src[k] in s.info
    requires forall j | c.ids <= j < |src| :: infos[j - c.ids] == Persist(s.info[src[j]].rec) && s.info[src[j]].inTried
    ensures TriedCopied(g, s, src, LoadTried(g, c, infos, n), c.ids + n)
  {
    hide AddrsOk, Copied, TriedOk, AddTried;
    if n > 0 {
      AllCopied(g, s, src, c, infos, n - 1);
      TriedCopiedNext(g, s, src, LoadTried(g, c, infos, n - 1), c.ids + n - 1, infos[n - 1]);
    }
  }

  // ---------------------------------------------------- buckets of the new table

  /** The slot of a bucket that can hold id. */
  function SlotIn(g: Geometry, info: Infos, b: nat, id: int): Slot
    requires id in info
  {
    Slot(b, g.position(info[id].rec.svc, true, b))
  }

  ghost predicate InBucket(g: Geometry, info: Infos, table: map<Slot, int>, b: nat, id: int) {
    id in info && SlotIn(g, info, b, id) in table && table[SlotIn(g, info, b, id)] == id
  }

  /** Every index is the number of an entry that the bucket holds. */
  ghost predicate Names(g: Geometry, info: Infos, table: map<Slot, int>, news: seq<int>, b: nat, k: int) {
    0 <= k < |news| && InBucket(g, info, table, b, news[k])
  }

  lemma RankNames(g: Geometry, s: State, sl: Slot)
    requires Consistent(g, s) && sl in s.newTable
    ensures var news := IdList(s.info, s.idCount, false);
      && Names(g, s.info, s.newTable, news, sl.bucket, Rank(s.info, s.newTable[sl]))
           && news[Rank(s.info, s.newTable[sl])] == s.newTable[sl]
  {
    var id := s.newTable[sl];
    PickedExactly(g, s, id);
    IdListMember(s.info, s.idCount, false, id);
  }

  lemma {:induction false} IndicesNamed(g: Geometry, s: State, b: nat, n: nat)
    requires Consistent(g, s)
    ensures var list, news := Indices(s.info, s.newTable, b, n), IdList(s.info, s.idCount, false);
      && (forall k | k in list :: Names(g, s.info, s.newTable, news, b, k))
      && (forall p: nat | p < n && Slot(b, p) in s.newTable :: Rank(s.info, s.newTable[Slot(b, p)]) in list)
  {
    hide Weak, Names, Rank, IdList;
    if n > 0 {
      IndicesNamed(g, s, b, n - 1);
      if Slot(b, n - 1) in s.newTable { RankNames(g, s, Slot(b, n - 1)); }
    }
  }

  ghost predicate Noted(g: Geometry, info: Infos, table: map<Slot, int>, news: seq<int>, m: map<int, nat>) {
    forall k | k in m :: Names(g, info, table, news, m[k], k)
  }

  lemma {:induction false} NoteIndicesOk(g: Geometry, s: State, news: seq<int>, m: map<int, nat>, list: seq<int>,
      n: nat, b: nat)
    requires Noted(g, s.info, s.newTable, news, m) && n <= |list|
    requires forall k | k in list :: Names(g, s.info, s.newTable, news, b, k)
    ensures var r := NoteIndices(m, list, n, b, |news|);
      Noted(g, s.info, s.newTable, news, r) && m.Keys <= r.Keys && forall i | 0 <= i < n :: list[i] in r
  {
    hide InBucket;
    if n > 0 {
      NoteIndicesOk(g, s, news, m, list, n - 1, b);
      var k := list[n - 1];
      assert k in list;
      assert Names(g, s.info, s.newTable, news, b, k);
    }
  }

  lemma {:induction false} NoteBucketsOk(g: Geometry, s: State, b: nat)
    requires Consistent(g, s) && g.InRange() && b <= g.newBuckets
    ensures var news := IdList(s.info, s.idCount, false);
      var r := NoteBuckets(AllIndices(s.info, s.newTable, g.newBuckets, g.bucketSize), b, |news|);
      && Noted(g, s.info, s.newTable, news, r)
      && (forall sl | sl in s.newTable && sl.bucket < b :: Rank(s.info, s.newTable[sl]) in r)
  {
    hide Weak, Names, Rank, IdList, NoteIndices, Indices;
    if b > 0 {
      NoteBucketsOk(g, s, b - 1);
      IndicesNamed(g, s, b - 1, g.bucketSize);
      var news, all := IdList(s.info, s.idCount, false), AllIndices(s.info, s.newTable, g.newBuckets, g.bucketSize);
      NoteIndicesOk(g, s, news, NoteBuckets(all, b - 1, |news|), all[b - 1], |all[b - 1]|, b - 1);
      forall sl | sl in s.newTable && sl.bucket < b
          ensures Rank(s.info, s.newTable[sl]) in NoteBuckets(all, b, |news|) {
        if sl.bucket == b - 1 {
          SlotInRange(g, s, sl);
          assert Slot(b - 1, sl.pos) == sl;
          var i :| 0 <= i < |all[b - 1]| && all[b - 1][i] == Rank(s.info, s.newTable[sl]);
        }
      }
    }
  }

  lemma SlotInRange(g: Geometry, s: State, sl: Slot)
    requires Consistent(g, s) && g.InRange() && sl in s.newTable
    ensures sl.bucket < g.newBuckets && sl.pos < g.bucketSize && s.newTable[sl] in s.info
  {}

  /** Every new entry is noted under a bucket that holds it. */
  lemma EveryEntryNoted(g: Geometry, s: State, k: nat)
    requires Consistent(g, s) && g.InRange() && k < |IdList(s.info, s.idCount, false)|
    ensures var news := IdList(s.info, s.idCount, false);
      var r := NoteBuckets(AllIndices(s.info, s.newTable, g.newBuckets, g.bucketSize), g.newBuckets, |news|);
      k in r && InBucket(g, s.info, s.newTable, r[k], news[k])
  {
    hide Weak, Rank, NoteBuckets, InBucket;
    var news := IdList(s.info, s.idCount, false);
    NoteBucketsOk(g, s, g.newBuckets);
    var id := news[k];
    var sl := SomeSlot(g, s, id);
    SlotInRange(g, s, sl);
    RankNames(g, s, sl);
    IdListAscending(s.info, s.idCount, false);
    var j := Rank(s.info, id);
    assert news[j] == id == news[k];
    assert j == k;
  }

  lemma SomeSlot(g: Geometry, s: State, id: int) returns (sl: Slot)
    requires Consistent(g, s) && id in s.info && Picked(s.info[id], false)
    ensures sl in s.newTable && s.newTable[sl] == id
  {
    assert |RefSlots(s.newTable, id)| != 0;
    sl :| sl in RefSlots(s.newTable, id);
  }

  // --------------------------------------------------------------- placed again

  /** The first n new entries are each in their one slot, and nothing else is. */
  ghost predicate Housed(home: seq<Slot>, h: Shelf, n: nat) {
    && n <= |home|
    && (forall k | 0 <= k < n :: home[k] in h.table && h.table[home[k]] == k)
    && (forall sl | sl in h.table :: 0 <= h.table[sl] < n && home[h.table[sl]] == sl)
    && (forall k | k in h.info :: h.info[k].refCount == if 0 <= k < n then 1 else 0)
  }

  ghost predicate SlotsInjective(home: seq<Slot>) { forall j, k | 0 <= j < k < |home| :: home[j] != home[k] }

  ghost predicate SameRecords(m: Infos, n: Infos) {
    m.Keys == n.Keys && forall k | k in m :: m[k].(refCount := 0) == n[k].(refCount := 0)
  }

  lemma PlacedNext(g: Geometry, home: seq<Slot>, h: Shelf, n: nat, bucket: nat)
    requires Housed(home, h, n) && SlotsInjective(home) && n < |home| && n in h.info
    requires home[n] == Slot(bucket, g.position(h.info[n].rec.svc, true, bucket))
    ensures var r := Place(g, true, bucket, h, n); Housed(home, r, n + 1) && SameRecords(r.info, h.info)
  {
    var r := Place(g, true, bucket, h, n);
    assert r == Put(h, n, home[n]);
  }

  lemma {:induction false} AllPlaced(g: Geometry, m: map<int, nat>, home: seq<Slot>, h: Shelf, n: nat)
    requires Housed(home, h, 0) && SlotsInjective(home) && n <= |home| && forall k | 0 <= k < |home| :: k in h.info
    requires forall k | 0 <= k < |home| ::
        home[k] == Slot(NotedBucket(m, k), g.position(h.info[k].rec.svc, true, NotedBucket(m, k)))
    ensures var r := PlaceAll(g, true, m, h, n); Housed(home, r, n) && SameRecords(r.info, h.info)
  {
    hide Housed, Place, SlotsInjective, SameRecords;
    SameSelf(h.info);
    if n > 0 {
      AllPlaced(g, m, home, h, n - 1);
      var h' := PlaceAll(g, true, m, h, n - 1);
      SameRecordOf(h'.info, h.info, n - 1);
      PlacedNext(g, home, h', n - 1, NotedBucket(m, n - 1));
      SameTrans(Place(g, true, NotedBucket(m, n - 1), h', n - 1).info, h'.info, h.info);
    }
  }

  lemma SameSelf(m: Infos)
    ensures SameRecords(m, m)
  {}

  lemma SameTrans(m: Infos, n: Infos, o: Infos)
    requires SameRecords(m, n) && SameRecords(n, o)
    ensures SameRecords(m, o)
  {}

  lemma SameRecordOf(m: Infos, n: Infos, k: int)
    requires SameRecords(m, n)
    ensures (k in m <==> k in n) && (k in m ==> m[k].rec == n[k].rec)
  {
    if k in m { assert m[k].(refCount := 0) == n[k].(refCount := 0); }
  }

  // ------------------------------------------------------------------ the round trip

  /** The slot of each new entry after loading. */
  ghost function Homes(g: Geometry, s: State): (home: seq<Slot>)
    ensures |home| == |IdList(s.info, s.idCount, false)|
  {
    var news := IdList(s.info, s.idCount, false);
    var m := NoteBuckets(AllIndices(s.info, s.newTable, g.newBuckets, g.bucketSize), g.newBuckets, |news|);
    seq(|news|, k requires 0 <= k < |news| => SlotIn(g, s.info, NotedBucket(m, k), news[k]))
  }

  /** Each is a slot that the entry had before. */
  lemma HomeHeld(g: Geometry, s: State, k: nat)
    requires Consistent(g, s) && g.InRange() && k < |Homes(g, s)|
    ensures Homes(g, s)[k] in s.newTable && s.newTable[Homes(g, s)[k]] == IdList(s.info, s.idCount, false)[k]
  {
    hide Weak, NoteBuckets, IdList;
    EveryEntryNoted(g, s, k);
  }

  lemma HomesInjective(g: Geometry, s: State)
    requires Consistent(g, s) && g.InRange()
    ensures SlotsInjective(Homes(g, s))
  {
    hide Weak, Homes, IdList;
    IdListAscending(s.info, s.idCount, false);
    var home, news := Homes(g, s), IdList(s.info, s.idCount, false);
    forall j, k | 0 <= j < k < |home| ensures home[j] != home[k] {
      assert news[j] < news[k];
      HomeHeld(g, s, j);
      HomeHeld(g, s, k);
    }
  }

  lemma SaveComplete(g: Geometry, s: State, v: nat)
    requires Consistent(g, s)
    ensures var st := Save(g, s, v);
      && Complete(st) && Usable(g, st, v) && |st.newInfos| == s.nNew && |st.triedInfos| == s.nTried
           && |st.buckets| == g.newBuckets
  {
    ListLengths(g, s);
    FlipTwice(g.newBuckets);
  }

  /** Every id of s is loaded again under some number. */
  lemma SourceOf(g: Geometry, s: State, id: int) returns (k: nat)
    requires Consistent(g, s) && id in s.info
    ensures k < |Sources(s)| && Sources(s)[k] == id
  {
    hide Weak;
    PickedExactly(g, s, id);
    ConsistentIds(g, s);
    var news := IdList(s.info, s.idCount, false);
    IdListMember(s.info, s.idCount, s.info[id].inTried, id);
    k := |IdList(s.info, id, s.info[id].inTried)| + (if s.info[id].inTried then |news| else 0);
  }

  /** The entries, tables and indexes of the loaded manager, in terms of the saved one. */
  ghost predicate Reloaded(g: Geometry, s: State, t: State) {
    var src, n := Sources(s), s.nNew;
    && t.key == s.key && t.idCount == |src| && t.nNew == n && t.nTried == s.nTried && 0 <= n <= |src| == n + s.nTried
    && (forall k :: k in t.info <==> 0 <= k < |src|)
    && (forall k | 0 <= k < |src| ::
          t.info[k] == Info(Persist(s.info[src[k]].rec), if k < n then 1 else 0, s.info[src[k]].inTried, k))
    && (forall k | 0 <= k < |src| :: s.info[src[k]].inTried <==> n <= k)
    && AddrsOk(t.info, t.addrs) && RandomOk(t.info, t.random) && TriedOk(g, t.info, t.triedTable)
    && (forall sl | sl in t.newTable :: 0 <= t.newTable[sl] < n && sl in s.newTable
         && s.newTable[sl] == src[t.newTable[sl]])
    && (forall k | 0 <= k < n :: |RefSlots(t.newTable, k)| == 1)
  }

  lemma SameRecordsIndexes(g: Geometry, m: Infos, n: Infos, addrs: map<NetAddr, int>, random: seq<int>,
      tried: map<Slot, int>)
    requires SameRecords(m, n) && AddrsOk(n, addrs) && RandomOk(n, random) && TriedOk(g, n, tried)
    ensures AddrsOk(m, addrs) && RandomOk(m, random) && TriedOk(g, m, tried)
  {
    forall k | k in m ensures m[k].rec == n[k].rec && m[k].inTried == n[k].inTried && m[k].randomPos == n[k].randomPos {
      assert m[k].(refCount := 0) == n[k].(refCount := 0);
    }
    forall sl | sl in tried ensures var k := tried[sl]; k in m && m[k].inTried && g.TriedSlot(m[k].rec.svc) == sl {
      var k := tried[sl];
      assert k in n;
    }
  }

  lemma LoadedCopies(g: Geometry, s: State, v: nat)
    requires Consistent(g, s)
    ensures var st := Save(g, s, v); Complete(st) && TriedCopied(g, s, Sources(s), Loaded(g, st), |Sources(s)|)
    ensures Injective(Sources(s)) && |Sources(s)| == s.nNew + s.nTried
    ensures forall k | 0 <= k < |Sources(s)| :: s.info[Sources(s)[k]].inTried <==> s.nNew <= k
  {
    hide Weak, AddrsOk, TriedOk, Copied, LoadNew, LoadTried, IdList;
    ConsistentParts(g, s);
    SaveComplete(g, s, v);
    SourcesInjective(g, s);
    var st, src := Save(g, s, v), Sources(s);
    NewCopied(s, src, st.newInfos, |st.newInfos|);
    var c := LoadNew(st.newInfos, |st.newInfos|);
    NoneTried(g, s, src, c.info, |st.newInfos|);
    AllCopied(g, s, src, c, st.triedInfos, |st.triedInfos|);
  }

  lemma ConsistentParts(g: Geometry, s: State)
    requires Consistent(g, s)
    ensures AddrsOk(s.info, s.addrs) && TriedOk(g, s.info, s.triedTable)
  {}

  lemma NoneTried(g: Geometry, s: State, src: seq<int>, info: Infos, n: nat)
    requires Copied(s, src, info, n) && forall k | 0 <= k < n :: !s.info[src[k]].inTried
    ensures TriedOk(g, info, map[])
  {}

  lemma HousedSlots(home: seq<Slot>, h: Shelf, n: nat, k: nat)
    requires Housed(home, h, n) && k < n
    ensures RefSlots(h.table, k) == {home[k]} && |RefSlots(h.table, k)| == 1
  {
    assert RefSlots(h.table, k) == {home[k]};
  }

  lemma UnplacedHoused(home: seq<Slot>, s: State, src: seq<int>, info: Infos, m: nat)
    requires Copied(s, src, info, m)
    ensures Housed(home, Shelf(info, map[]), 0)
  {}

  /** The slots that are noted are the ones the saved table had. */
  lemma HomesMatch(g: Geometry, s: State, info: Infos, k: nat)
    requires Consistent(g, s) && g.InRange() && Copied(s, Sources(s), info, |Sources(s)|)
    requires k < |Homes(g, s)| <= |Sources(s)|
    ensures var st := Save(g, s, 0); var m := NoteBuckets(st.buckets, |st.buckets|, |IdList(s.info, s.idCount, false)|);
      k in info && Homes(g, s)[k] == Slot(NotedBucket(m, k), g.position(info[k].rec.svc, true, NotedBucket(m, k)))
  {
    hide Weak, NoteBuckets, IdList, Indices;
    assert Sources(s)[k] == IdList(s.info, s.idCount, false)[k];
  }

  lemma ShelvedReloads(g: Geometry, s: State, v: nat, collisions: set<int>)
    requires Consistent(g, s) && g.InRange()
    ensures Complete(Save(g, s, v)) && Reloaded(g, s, Shelved(g, Save(g, s, v), v, collisions))
  {
    hide Weak, AddrsOk, TriedOk, RandomOk, Housed, Copied, LoadNew, LoadTried, IdList, NoteBuckets, PlaceAll, Homes,
        SameRecords, Persist;
    SaveComplete(g, s, v);
    LoadedCopies(g, s, v);
    ListLengths(g, s);
    HomesInjective(g, s);
    var st, src, home := Save(g, s, v), Sources(s), Homes(g, s);
    var c := Loaded(g, st);
    LoadedIds(g, st);
    var m := NoteBuckets(st.buckets, |st.buckets|, st.nNew);
    UnplacedHoused(home, s, src, c.info, |src|);
    forall k | 0 <= k < |home|
      ensures k in c.info && home[k] == Slot(NotedBucket(m, k), g.position(c.info[k].rec.svc, true, NotedBucket(m, k)))
    {
      HomesMatch(g, s, c.info, k);
    }
    AllPlaced(g, m, home, Shelf(c.info, map[]), |home|);
    var h := PlaceAll(g, true, m, Shelf(c.info, map[]), |home|);
    SameRecordsIndexes(g, h.info, c.info, c.addrs, c.random, c.tried);
    forall k | 0 <= k < |home| ensures |RefSlots(h.table, k)| == 1 { HousedSlots(home, h, |home|, k); }
    CopiedEntries(s, src, c.info, h, home);
    HousedTable(g, s, h, home);
  }

  lemma CopiedEntries(s: State, src: seq<int>, info: Infos, h: Shelf, home: seq<Slot>)
    requires Copied(s, src, info, |src|) && SameRecords(h.info, info) && Housed(home, h, |home|)
    ensures forall k :: k in h.info <==> 0 <= k < |src|
    ensures forall k | 0 <= k < |src| ::
        h.info[k] == Info(Persist(s.info[src[k]].rec), if k < |home| then 1 else 0, s.info[src[k]].inTried, k)
  {
    forall k | 0 <= k < |src|
      ensures h.info[k] == Info(Persist(s.info[src[k]].rec), if k < |home| then 1 else 0, s.info[src[k]].inTried, k)
    {
      assert h.info[k].(refCount := 0) == info[k].(refCount := 0);
    }
  }

  lemma HousedTable(g: Geometry, s: State, h: Shelf, home: seq<Slot>)
    requires Consistent(g, s) && g.InRange() && home == Homes(g, s) && Housed(home, h, |home|)
    ensures forall sl | sl in h.table ::
        0 <= h.table[sl] < |home| && sl in s.newTable && s.newTable[sl] == Sources(s)[h.table[sl]]
  {
    hide Weak, IdList, Homes;
    forall sl | sl in h.table ensures 0 <= h.table[sl] < |home| && sl in s.newTable
        && s.newTable[sl] == Sources(s)[h.table[sl]] {
      var k := h.table[sl];
      assert home[k] == sl;
      HomeHeld(g, s, k);
      assert Sources(s)[k] == IdList(s.info, s.idCount, false)[k];
    }
  }

  function Numbers(a: int, n: nat): seq<int> { seq(n, i => a + i) }

  lemma NumbersCount(a: int, n: nat)
    ensures |Elements(Numbers(a, n))| == n
  {
    AscendingCount(Numbers(a, n));
  }

  lemma ReloadedCounts(g: Geometry, s: State, t: State)
    requires Reloaded(g, s, t)
    ensures CountsOk(t.info, t.nTried, t.nNew, 0)
  {
    hide AddrsOk, RandomOk, TriedOk, Sources;
    var n, m := t.nNew, t.nTried;
    NumbersCount(0, n);
    NumbersCount(n, m);
    forall k ensures k in NewIds(t.info) <==> k in Numbers(0, n) {
      if 0 <= k < n { assert Numbers(0, n)[k] == k; }
    }
    forall k ensures k in TriedIds(t.info) <==> k in Numbers(n, m) {
      if n <= k < n + m { assert Numbers(n, m)[k - n] == k; }
    }
    assert NewIds(t.info) == Elements(Numbers(0, n));
    assert TriedIds(t.info) == Elements(Numbers(n, m));
  }

  lemma ReloadedNewTable(g: Geometry, s: State, t: State)
    requires Reloaded(g, s, t) && Consistent(g, s)
    ensures NewSlotsOk(g, t.info, t.newTable) && RefsOk(t.info, t.newTable, {})
  {
    hide AddrsOk, RandomOk, TriedOk, Sources, RefsOk, CountsOk;
    forall sl | sl in t.newTable
      ensures var k := t.newTable[sl];
        && sl.bucket < g.newBuckets && k in t.info && !t.info[k].inTried
        && sl.pos == g.position(t.info[k].rec.svc, true, sl.bucket)
    {
      var k := t.newTable[sl];
      assert s.newTable[sl] == Sources(s)[k];
    }
    ReloadedRefs(g, s, t);
  }

  lemma ReloadedRefs(g: Geometry, s: State, t: State)
    requires Reloaded(g, s, t)
    ensures RefsOk(t.info, t.newTable, {})
  {
    hide AddrsOk, RandomOk, TriedOk, Sources, Persist;
    forall k | k in t.info ensures t.info[k].refCount == |RefSlots(t.newTable, k)| {
      if t.nNew <= k { assert RefSlots(t.newTable, k) == {}; }
    }
  }

  /** The loaded manager meets every condition of Check_. */
  lemma ReloadedConsistent(g: Geometry, s: State, t: State)
    requires Reloaded(g, s, t) && Consistent(g, s)
    ensures Consistent(g, t)
  {
    hide AddrsOk, RandomOk, TriedOk, NewSlotsOk, RefsOk, CountsOk;
    ReloadedCounts(g, s, t);
    ReloadedNewTable(g, s, t);
    forall k | k in t.info ensures 0 <= t.info[k].rec.lastTry && 0 <= t.info[k].rec.lastSuccess
        && (t.info[k].inTried ==> t.info[k].rec.lastSuccess != 0) {
      assert Sources(s)[k] in s.info;
    }
  }

  lemma {:induction false} NothingToPrune(s: State, k: nat, n: nat)
    requires RandomOk(s.info, s.random) && forall j :: !Stray(s.info, j)
    ensures Prune(s, k, n) == s
    decreases n - k
  {
    if k < n { NothingToPrune(s, k + 1, n); }
  }

  /** Unserialize, past its first checks. */
  ghost function Load(g: Geometry, st: Stored, asmapVersion: nat, collisions: set<int>): State
    requires Complete(st)
  {
    var t := Shelved(g, st, asmapVersion, collisions);
    ShelvedRandom(g, st, asmapVersion, collisions);
    Prune(t, 0, t.idCount)
  }

  lemma ShelvedRandom(g: Geometry, st: Stored, asmapVersion: nat, collisions: set<int>)
    requires Complete(st)
    ensures var t := Shelved(g, st, asmapVersion, collisions); RandomOk(t.info, t.random)
  {
    hide PlaceAll, NoteBuckets, LoadNew, LoadTried;
    LoadedIds(g, st);
    var c := Loaded(g, st);
    PlaceAllRandom(g, Usable(g, st, asmapVersion), NoteBuckets(st.buckets, |st.buckets|, st.nNew), Shelf(c.info, map[]),
        |st.newInfos|, c.random);
  }

  lemma {:induction false} PlaceAllRandom(g: Geometry, usable: bool, m: map<int, nat>, h: Shelf, n: nat,
      random: seq<int>)
    requires (forall k | 0 <= k < n :: k in h.info) && RandomOk(h.info, random)
    ensures RandomOk(PlaceAll(g, usable, m, h, n).info, random)
  {
    hide RandomOk, Place;
    if n > 0 {
      PlaceAllRandom(g, usable, m, h, n - 1, random);
      PlaceRandom(g, usable, NotedBucket(m, n - 1), PlaceAll(g, usable, m, h, n - 1), n - 1, random);
    }
  }

  lemma PlaceRandom(g: Geometry, usable: bool, bucket: nat, h: Shelf, n: int, random: seq<int>)
    requires n in h.info && RandomOk(h.info, random)
    ensures RandomOk(Place(g, usable, bucket, h, n).info, random)
  {
    hide RandomOk;
    CountRandom(h.info, n, h.info[n].refCount + 1, random);
  }

  lemma CountRandom(info: Infos, n: int, refs: int, random: seq<int>)
    requires n in info && RandomOk(info, random)
    ensures RandomOk(info[n := info[n].(refCount := refs)], random)
  {}

  /**
   Nothing is lost: the same addresses with the same records, every tried entry in its
   slot, every new one in one slot it had.
   */
  ghost predicate SameEntries(s: State, t: State) {
    && t.key == s.key && t.nNew == s.nNew && t.nTried == s.nTried && t.addrs.Keys == s.addrs.Keys
    && (forall a | a in s.addrs :: SameEntry(s, t, a))
    && (forall sl | sl in t.newTable :: sl in s.newTable && SameNet(s, s.newTable[sl], t, t.newTable[sl]))
    && t.triedTable.Keys == s.triedTable.Keys
    && (forall sl | sl in s.triedTable :: SameNet(s, s.triedTable[sl], t, t.triedTable[sl]))
  }

  ghost predicate SameEntry(s: State, t: State, a: NetAddr) {
    && a in s.addrs && a in t.addrs && s.addrs[a] in s.info && t.addrs[a] in t.info
    && t.info[t.addrs[a]].rec == s.info[s.addrs[a]].rec.(lastTry := 0, lastCountAttempt := 0)
         && t.info[t.addrs[a]].inTried == s.info[s.addrs[a]].inTried
    && (!s.info[s.addrs[a]].inTried ==> |RefSlots(t.newTable, t.addrs[a])| == 1)
  }

  ghost predicate SameNet(s: State, i: int, t: State, j: int) {
    i in s.info && j in t.info && s.info[i].rec.svc.net == t.info[j].rec.svc.net
  }

  lemma {:induction false} InjectiveCount(xs: seq<int>)
    requires Injective(xs)
    ensures |Elements(xs)| == |xs|
  {
    if xs != [] {
      var n := |xs| - 1;
      InjectiveCount(xs[..n]);
      assert Elements(xs) == Elements(xs[..n]) + {xs[n]};
      assert xs[n] !in Elements(xs[..n]);
    }
  }

  function Code(sl: Slot, size: nat): int { sl.bucket * size + sl.pos }

  lemma CodeFacts(sl: Slot, sl': Slot, buckets: nat, size: nat)
    requires sl.bucket < buckets && sl.pos < size && sl'.pos < size
    ensures 0 <= Code(sl, size) < buckets * size
    ensures Code(sl, size) == Code(sl', size) ==> sl == sl'
  {
    MulMono(sl.bucket + 1, buckets, size);
    MulDistrib(sl.bucket, 1, size);
    if Code(sl, size) == Code(sl', size) {
      DivModUnique(Code(sl, size), size, sl.bucket, sl.pos);
      DivModUnique(Code(sl, size), size, sl'.bucket, sl'.pos);
    }
  }

  /** A table has no room for more distinct slots than it has. */
  lemma RoomBound(slots: seq<Slot>, buckets: nat, size: nat)
    requires SlotsInjective(slots) && forall k | 0 <= k < |slots| :: slots[k].bucket < buckets && slots[k].pos < size
    ensures |slots| <= buckets * size
  {
    hide Code;
    var codes := seq(|slots|, k requires 0 <= k < |slots| => Code(slots[k], size));
    var room: nat := buckets * size;
    forall j, k | 0 <= j < k < |codes| ensures codes[j] != codes[k] { CodeFacts(slots[j], slots[k], buckets, size); }
    forall x | x in Elements(codes) ensures x in Elements(Numbers(0, room)) {
      var k :| 0 <= k < |codes| && codes[k] == x;
      CodeFacts(slots[k], slots[k], buckets, size);
      assert Numbers(0, room)[x] == x;
    }
    InjectiveCount(codes);
    NumbersCount(0, room);
    SubsetCount(Elements(codes), Elements(Numbers(0, room)));
  }

  /** Accepted: a known format, a key of 32 bytes, and counts that fit the tables. */
  lemma AcceptedExactly(g: Geometry, st: Stored)
    ensures !Refused(g, st) <==>
      && st.format in {0, 1, 2, 3} && st.keySize == 32
      && st.nNew <= g.newBuckets * g.bucketSize && st.nTried <= g.triedBuckets * g.bucketSize
  {}

  /** Formats from 1 on have bit 30 of the number of buckets flipped, which reading undoes. */
  lemma MarkUndone(st: Stored, n: nat)
    requires st.nUBuckets == if st.format == 0 then n else FlipBit30(n)
    ensures BucketCount(st) == n
  {
    hide FlipBit30;
    FlipTwice(n);
  }

  /** What a consistent manager saves is in the latest format and not refused. */
  lemma SaveAccepted(g: Geometry, s: State, v: nat)
    requires Consistent(g, s) && g.InRange()
    ensures !Refused(g, Save(g, s, v)) && Save(g, s, v).format == 3
  {
    hide Weak, IdList, Homes, Records, AllIndices, FlipBit30;
    ListLengths(g, s);
    var home := Homes(g, s);
    HomesInjective(g, s);
    forall k | 0 <= k < |home| ensures home[k].bucket < g.newBuckets && home[k].pos < g.bucketSize {
      HomeHeld(g, s, k);
      SlotInRange(g, s, home[k]);
    }
    RoomBound(home, g.newBuckets, g.bucketSize);
    TriedRoom(g, s);
  }

  lemma TriedRoom(g: Geometry, s: State)
    requires Consistent(g, s) && g.InRange()
    ensures |IdList(s.info, s.idCount, true)| <= g.triedBuckets * g.bucketSize
  {
    hide Weak, IdList, TriedOk;
    ConsistentParts(g, s);
    IdListAscending(s.info, s.idCount, true);
    var ids := IdList(s.info, s.idCount, true);
    var slots := seq(|ids|, k requires 0 <= k < |ids| => g.TriedSlot(s.info[ids[k]].rec.svc));
    forall j, k | 0 <= j < k < |slots| ensures slots[j] != slots[k] {
      assert ids[j] < ids[k];
      TriedSlotsDiffer(g, s, ids[j], ids[k]);
    }
    RoomBound(slots, g.triedBuckets, g.bucketSize);
  }

  lemma TriedSlotsDiffer(g: Geometry, s: State, i: int, j: int)
    requires TriedOk(g, s.info, s.triedTable) && i in s.info && j in s.info && s.info[i].inTried && s.info[j].inTried
    requires i != j
    ensures g.TriedSlot(s.info[i].rec.svc) != g.TriedSlot(s.info[j].rec.svc)
  {}

  lemma ReloadedAddress(g: Geometry, s: State, t: State, a: NetAddr)
    requires Reloaded(g, s, t) && Consistent(g, s) && a in s.addrs
    ensures SameEntry(s, t, a)
  {
    hide Weak, Sources, RandomOk, Persist, TriedOk;
    ConsistentParts(g, s);
    var k := SourceOf(g, s, s.addrs[a]);
    PersistKeeps(s.info[s.addrs[a]].rec);
    assert t.info[k].rec.svc.net == a;
  }

  /** The entry loaded under number k has the address of its source. */
  lemma SourceNet(g: Geometry, s: State, t: State, k: int)
    requires Reloaded(g, s, t) && k in t.info
    ensures 0 <= k < |Sources(s)| && t.info[k].rec.svc == s.info[Sources(s)[k]].rec.svc
    ensures t.info[k].inTried == s.info[Sources(s)[k]].inTried
  {}

  lemma ReloadedAddresses(g: Geometry, s: State, t: State)
    requires Reloaded(g, s, t) && Consistent(g, s)
    ensures t.addrs.Keys == s.addrs.Keys && forall a | a in s.addrs :: SameEntry(s, t, a)
  {
    hide Weak, Sources, RandomOk, Persist, TriedOk;
    ConsistentParts(g, s);
    forall a | a in s.addrs ensures SameEntry(s, t, a) { ReloadedAddress(g, s, t, a); }
    forall a | a in t.addrs ensures a in s.addrs {
      SourceNet(g, s, t, t.addrs[a]);
      var id := Sources(s)[t.addrs[a]];
      assert s.info[id].rec.svc.net == a;
    }
  }

  lemma ReloadedNew(g: Geometry, s: State, t: State)
    requires Reloaded(g, s, t)
    ensures forall sl | sl in t.newTable :: sl in s.newTable && SameNet(s, s.newTable[sl], t, t.newTable[sl])
  {
    hide Sources, AddrsOk, RandomOk, Persist, TriedOk;
    forall sl | sl in t.newTable ensures sl in s.newTable && SameNet(s, s.newTable[sl], t, t.newTable[sl]) {
      SourceNet(g, s, t, t.newTable[sl]);
    }
  }

  lemma ReloadedCounters(g: Geometry, s: State, t: State)
    requires Reloaded(g, s, t)
    ensures t.key == s.key && t.nNew == s.nNew && t.nTried == s.nTried
  {
    hide AddrsOk, RandomOk, TriedOk;
  }

  lemma ReloadedEntries(g: Geometry, s: State, t: State)
    requires Reloaded(g, s, t) && Consistent(g, s)
    ensures SameEntries(s, t)
  {
    hide Weak, Reloaded, SameEntry, SameNet;
    ReloadedCounters(g, s, t);
    ReloadedAddresses(g, s, t);
    ReloadedNew(g, s, t);
    ReloadedTried(g, s, t);
  }

  lemma PersistKeeps(r: Record)
    ensures Persist(r) == r.(lastTry := 0, lastCountAttempt := 0)
  {}

  lemma ReloadedTried(g: Geometry, s: State, t: State)
    requires Reloaded(g, s, t) && Consistent(g, s)
    ensures t.triedTable.Keys == s.triedTable.Keys
    ensures forall sl | sl in s.triedTable :: SameNet(s, s.triedTable[sl], t, t.triedTable[sl])
  {
    hide Weak, Sources, RandomOk, AddrsOk;
    ConsistentParts(g, s);
    var src := Sources(s);
    forall sl | sl in s.triedTable ensures sl in t.triedTable && SameNet(s, s.triedTable[sl], t, t.triedTable[sl]) {
      var id := s.triedTable[sl];
      var k := SourceOf(g, s, id);
      assert t.info[k].inTried && g.TriedSlot(t.info[k].rec.svc) == sl;
    }
    forall sl | sl in t.triedTable ensures sl in s.triedTable {
      var k := t.triedTable[sl];
      SourceNet(g, s, t, k);
      var id := src[k];
      assert s.info[id].inTried && g.TriedSlot(s.info[id].rec.svc) == sl;
    }
  }

  /** Unserialize of Serialize under the same asmap: accepted, nothing lost, consistent. */
  lemma SaveLoad(g: Geometry, s: State, v: nat, collisions: set<int>)
    requires Consistent(g, s) && g.InRange()
    ensures var st := Save(g, s, v);
      !Refused(g, st) && Complete(st) && Consistent(g, Load(g, st, v, collisions))
          && SameEntries(s, Load(g, st, v, collisions))
  {
    hide Weak, Save, Shelved, Refused, Complete, SameEntries;
    SaveAccepted(g, s, v);
    ShelvedReloads(g, s, v, collisions);
    var t := Shelved(g, Save(g, s, v), v, collisions);
    ReloadedConsistent(g, s, t);
    ReloadedEntries(g, s, t);
    NothingToPrune(t, 0, t.idCount);
  }
}
