/**
 The class CAddrMan of src/addrman.h and src/addrman.cpp, with its fields updated
 in place. Every method is proved against its value-level form in AddrState and
 AddrOps; the statements named as asserts in the source are asserts here.
 */
module AddrMan {
  import opened AddrTypes
  import opened AddrState
  import opened AddrOps
  import opened AddrBook
  import opened AddrCheck
  import opened AddrReload
  import opened AddrStore
  import opened Powers
  import opened Basics

  /** A table of buckets, with -1 in every empty cell. */
  type Table = seq<seq<int>>

  predicate InTable(t: Table, sl: Slot) { sl.bucket < |t| && sl.pos < |t[sl.bucket]| }

  function Cell(t: Table, sl: Slot): int
    requires InTable(t, sl)
  {
    t[sl.bucket][sl.pos]
  }

  function SetCell(t: Table, sl: Slot, id: int): Table
    requires InTable(t, sl)
  {
    t[sl.bucket := t[sl.bucket][sl.pos := id]]
  }

  ghost function Contents(t: Table): map<Slot, int> {
    map b: nat, p: nat | b < |t| && p < |t[b]| && t[b][p] != -1 :: Slot(b, p) := t[b][p]
  }

  predicate Rectangular(t: Table, buckets: nat, size: nat) {
    |t| == buckets && forall b | 0 <= b < buckets :: |t[b]| == size
  }

  lemma CellAt(t: Table, sl: Slot)
    ensures sl in Contents(t) <==> InTable(t, sl) && Cell(t, sl) != -1
    ensures sl in Contents(t) ==> Contents(t)[sl] == Cell(t, sl)
  {}

  lemma SetCellAt(t: Table, sl: Slot, id: int, k: Slot)
    requires InTable(t, sl)
    ensures InTable(SetCell(t, sl, id), k) <==> InTable(t, k)
    ensures InTable(t, k) ==> Cell(SetCell(t, sl, id), k) == if k == sl then id else Cell(t, k)
  {}

  lemma SetCellShape(t: Table, sl: Slot, id: int, buckets: nat, size: nat)
    requires InTable(t, sl) && Rectangular(t, buckets, size)
    ensures Rectangular(SetCell(t, sl, id), buckets, size)
  {}

  /** One slot of the new contents. */
  lemma SetCellSlot(t: Table, sl: Slot, id: int, k: Slot)
    requires InTable(t, sl)
    ensures var now := Contents(SetCell(t, sl, id));
      && (k in now <==> if k == sl then id != -1 else k in Contents(t))
      && (k in now ==> now[k] == if k == sl then id else Contents(t)[k])
  {
    hide Contents, InTable, SetCell;
    CellAt(t, k);
    CellAt(SetCell(t, sl, id), k);
    SetCellAt(t, sl, id, k);
  }

  lemma SetCellContents(t: Table, sl: Slot, id: int, buckets: nat, size: nat)
    requires InTable(t, sl) && Rectangular(t, buckets, size)
    ensures Rectangular(SetCell(t, sl, id), buckets, size)
    ensures Contents(SetCell(t, sl, id)) == if id == -1 then Contents(t) - {sl} else Contents(t)[sl := id]
  {
    hide Contents, InTable, SetCell, Rectangular;
    SetCellShape(t, sl, id, buckets, size);
    var was, now := Contents(t), Contents(SetCell(t, sl, id));
    forall k ensures
      && (k in now <==> if k == sl then id != -1 else k in was)
      && (k in now ==> now[k] == if k == sl then id else was[k])
    {
      SetCellSlot(t, sl, id, k);
    }
  }

  lemma CellsInRange(t: Table, buckets: nat, size: nat)
    requires Rectangular(t, buckets, size)
    ensures forall sl | sl in Contents(t) :: sl.bucket < buckets && sl.pos < size
  {
    forall sl | sl in Contents(t) ensures sl.bucket < buckets && sl.pos < size { CellAt(t, sl); }
  }

  function EmptyTable(buckets: nat, size: nat): (t: Table)
    ensures Rectangular(t, buckets, size) && Contents(t) == map[]
  {
    var t := seq(buckets, i => seq(size, j => -1));
    assert forall sl :: sl !in Contents(t);
    t
  }

  /** The slots holding `id` in the first `n` buckets. */
  function RefSlotsBelow(table: map<Slot, int>, id: int, n: nat): set<Slot> {
    set sl | sl in RefSlots(table, id) && sl.bucket < n
  }

  lemma ScanBucket(g: Geometry, info: Infos, table: map<Slot, int>, id: int, bucket: nat, pos: nat)
    requires NewSlotsOk(g, info, table) && id in info && pos == g.position(info[id].rec.svc, true, bucket)
    ensures var r := Unlisted(info, table, id, bucket);
      && id in r.0 && r.0[id].rec == info[id].rec
      && Unlisted(info, table, id, bucket + 1) == UnlistOne(r.0, r.1, id, Slot(bucket, pos))
  {
    hide NewSlotsOk;
    var sl := Slot(bucket, pos);
    var r := Unlisted(info, table, id, bucket);
    ScanBelow(g, info, table, id, bucket, pos);
    hide RefSlotsBelow;
    var u, v := Unlisted(info, table, id, bucket + 1), UnlistOne(r.0, r.1, id, sl);
    assert u.1 == v.1;
    assert u.0 == v.0;
  }

  lemma ScanBelow(g: Geometry, info: Infos, table: map<Slot, int>, id: int, bucket: nat, pos: nat)
    requires NewSlotsOk(g, info, table) && id in info && pos == g.position(info[id].rec.svc, true, bucket)
    ensures var sl := Slot(bucket, pos);
      && sl !in RefSlotsBelow(table, id, bucket)
      && RefSlotsBelow(table, id, bucket + 1) == RefSlotsBelow(table, id, bucket) +
           (if Holds(table, sl, id) then {sl} else {})
  {}

  lemma MakeTriedParts(g: Geometry, s: State, id: int)
    requires g.InRange() && Consistent(g, s) && id in s.info && !s.info[id].inTried && s.info[id].rec.lastSuccess != 0
    ensures CanMakeTried(g, s, id) && NewSlotsOk(g, s.info, s.newTable) && 0 <= id
    ensures var u, sl := Unlist(s, id), g.TriedSlot(s.info[id].rec.svc);
      && Weak(g, u, {id}, 1) && u.triedTable == s.triedTable
      && id in u.info && u.info[id] == s.info[id].(refCount := 0)
      && (sl in s.triedTable ==> CanEvict(g, u, sl) && id in Evict(g, u, sl).info)
      && MakeTried(g, s, id) == Promote(g, if sl in s.triedTable then Evict(g, u, sl) else u, id)
  {
    UnlistKeeps(g, s, id);
    WeakParts(g, s);
    hide Weak, CanEvict, Evict, Unlist, NewSlotsOk, Promote;
    MakeTriedKeeps(g, s, id);
  }

  lemma WeakParts(g: Geometry, s: State)
    requires Consistent(g, s)
    ensures NewSlotsOk(g, s.info, s.newTable) && AddrsOk(s.info, s.addrs) && forall id | id in s.info :: 0 <= id
  {}

  function LessRefs(info: Infos, id: int, n: nat): Infos
    requires id in info
  {
    info[id := info[id].(refCount := info[id].refCount - n)]
  }

  function UnlistOne(info: Infos, table: map<Slot, int>, id: int, sl: Slot): (Infos, map<Slot, int>)
    requires id in info
  {
    if Holds(table, sl, id) then (LessRefs(info, id, 1), table - {sl}) else (info, table)
  }

  function Unlisted(info: Infos, table: map<Slot, int>, id: int, n: nat): (Infos, map<Slot, int>)
    requires id in info
  {
    (LessRefs(info, id, |RefSlotsBelow(table, id, n)|), table - RefSlotsBelow(table, id, n))
  }

  lemma ScanStart(info: Infos, table: map<Slot, int>, id: int)
    requires id in info
    ensures Unlisted(info, table, id, 0) == (info, table)
  {
    assert RefSlotsBelow(table, id, 0) == {};
    assert Unlisted(info, table, id, 0).0 == info;
    assert Unlisted(info, table, id, 0).1 == table;
  }

  lemma ScanEnd(g: Geometry, info: Infos, table: map<Slot, int>, id: int)
    requires NewSlotsOk(g, info, table)
    requires id in info
    ensures Unlisted(info, table, id, g.newBuckets) ==
        (LessRefs(info, id, |RefSlots(table, id)|), table - RefSlots(table, id))
  {
    assert RefSlotsBelow(table, id, g.newBuckets) == RefSlots(table, id);
  }

  /** A slot of the new table that holds a referenced id. */
  ghost function HeldSlot(g: Geometry, s: State, id: int): (sl: Slot)
    requires Consistent(g, s) && id in s.info && !s.info[id].inTried
    ensures Holds(s.newTable, sl, id) && sl.bucket < g.newBuckets
    ensures sl.pos == g.position(s.info[id].rec.svc, true, sl.bucket)
    ensures 0 <= id
  {
    assert |RefSlots(s.newTable, id)| != 0;
    var sl :| sl in RefSlots(s.newTable, id);
    sl
  }

  lemma AddrsKnown(g: Geometry, s: State, a: NetAddr)
    requires Consistent(g, s)
    ensures a in s.addrs ==> s.addrs[a] in s.info
  {}

  lemma IdsPositive(g: Geometry, s: State, id: int)
    requires Consistent(g, s) && id in s.info
    ensures 0 <= id
  {}

  lemma EnterKnown(g: Geometry, s: State, id: int, sl: Slot)
    requires CanEnter(g, s, id, sl)
    ensures sl in s.newTable ==> s.newTable[sl] in s.info
  {}

  lemma SwapFirst(s: State, n: nat, j: nat)
    requires CanSwap(s.info, s.random, n, j) && AllAlike(SwapRandom(s, n, j).info, s.info)
    ensures var t := SwapRandom(s, n, j);
      && |t.random| == |s.random| && t.random[n] == s.random[j]
      && t.random[n] in t.info && t.info[t.random[n]].rec == s.info[s.random[j]].rec
  {
    var id := s.random[j];
    assert Alike(SwapRandom(s, n, j).info[id], s.info[id]);
  }

  /** One turn of the loop of GetAddr_. */
  lemma DrawNext(g: Geometry, s: State, n: nat, out: seq<Address>, wanted: nat, clock: nat -> int, draw: nat -> nat)
    requires Ready(g, s) && n < |s.random| && |out| < wanted
    ensures var j := DrawFrom(draw(n), n, |s.random|);
      && CanSwap(s.info, s.random, n, j)
      && var t := SwapRandom(s, n, j);
      && Ready(g, t) && |t.random| == |s.random| && t.random[n] in t.info
      && var rec := t.info[t.random[n]].rec;
      GetAddrFrom(g, s, n, out, wanted, clock, draw) ==
      GetAddrFrom(g, t, n + 1, if IsTerrible(rec, clock(n)) then out else out + [AddressOf(rec)], wanted, clock, draw)
  {
    hide Weak, CollisionsOk, Evolves, IsTerrible, DrawFrom, SwapRandom;
    var j := DrawFrom(draw(n), n, |s.random|);
    SwapRandomReady(g, s, n, j);
    SwapFirst(s, n, j);
  }

  lemma DrawDone(g: Geometry, s: State, n: nat, out: seq<Address>, wanted: nat, clock: nat -> int, draw: nat -> nat)
    requires Ready(g, s) && n <= |s.random| && (n == |s.random| || |out| >= wanted)
    ensures GetAddrFrom(g, s, n, out, wanted, clock, draw) == (s, out)
  {
    hide Weak, CollisionsOk, Evolves, IsTerrible, DrawFrom, SwapRandom;
  }

  function Wrapped(n: nat, start: nat, m: nat): (b: nat)
    requires 0 < m
    ensures b < m
  {
    (n + start) % m
  }

  /** Counting up from any start, every bucket is reached before the count wraps. */
  lemma WrapAround(start: nat, b: nat, m: nat) returns (n: nat)
    requires start < m && b < m
    ensures n < m && Wrapped(n, start, m) == b
  {
    n := if start <= b then b - start else b + m - start;
    if b < start {
      assert n + start == m + b;
    }
  }

  class Manager {
    const cfg: Params
    var hashing: Geometry
    var vvNew: Table
    var vvTried: Table
    var nKey: nat
    var nIdCount: nat
    var mapInfo: map<int, Info>
    var mapAddr: map<NetAddr, int>
    var vRandom: seq<int>
    var nTried: int
    var nNew: int
    var nLastGood: int
    var triedCollisions: set<int>

    ghost function St(): State
      reads this
    {
      State(nKey, nIdCount, mapInfo, mapAddr, vRandom, Contents(vvTried), nTried, Contents(vvNew), nNew, nLastGood,
          triedCollisions)
    }

    ghost predicate Shape()
      reads this
    {
      hashing.InRange() && Rectangular(vvNew, hashing.newBuckets, hashing.bucketSize)
          && Rectangular(vvTried, hashing.triedBuckets, hashing.bucketSize)
    }

    ghost predicate Valid()
      reads this
    {
      Shape() && Ready(hashing, St())
    }

    /** An empty manager; `key` is the 256-bit key drawn by Clear. */
    constructor (cfg: Params, key: nat)
      requires key != 0
      ensures Valid()
      ensures this.cfg == cfg && hashing == GeometryOf(cfg, key) && St() == AddrOps.Empty(key)
      ensures CollisionsOk(hashing, St())
    {
      this.cfg := cfg;
      nKey, hashing := key, GeometryOf(cfg, key);
      vvNew := EmptyTable(cfg.newBuckets, cfg.bucketSize);
      vvTried := EmptyTable(cfg.triedBuckets, cfg.bucketSize);
      nIdCount, mapInfo, mapAddr, vRandom := 0, map[], map[], [];
      nTried, nNew, nLastGood, triedCollisions := 0, 0, 1, {};
      new;
      EmptyReady(hashing, key);
    }

    method GetNew(b: nat, p: nat) returns (id: int)
      requires Shape() && b < hashing.newBuckets && p < hashing.bucketSize
      ensures id != -1 <==> Slot(b, p) in Contents(vvNew)
      ensures id != -1 ==> id == Contents(vvNew)[Slot(b, p)]
    {
      id := vvNew[b][p];
      CellAt(vvNew, Slot(b, p));
    }

    method GetTried(b: nat, p: nat) returns (id: int)
      requires Shape() && b < hashing.triedBuckets && p < hashing.bucketSize
      ensures id != -1 <==> Slot(b, p) in Contents(vvTried)
      ensures id != -1 ==> id == Contents(vvTried)[Slot(b, p)]
    {
      id := vvTried[b][p];
      CellAt(vvTried, Slot(b, p));
    }

    method SetNew(b: nat, p: nat, id: int)
      requires Shape() && b < hashing.newBuckets && p < hashing.bucketSize
      modifies this`vvNew
      ensures Shape()
      ensures Contents(vvNew) == if id == -1 then old(Contents(vvNew)) - {Slot(b, p)}
          else old(Contents(vvNew))[Slot(b, p) := id]
    {
      SetCellContents(vvNew, Slot(b, p), id, hashing.newBuckets, hashing.bucketSize);
      vvNew := vvNew[b := vvNew[b][p := id]];
    }

    method SetTried(b: nat, p: nat, id: int)
      requires Shape() && b < hashing.triedBuckets && p < hashing.bucketSize
      modifies this`vvTried
      ensures Shape()
      ensures Contents(vvTried) == if id == -1 then old(Contents(vvTried)) - {Slot(b, p)}
          else old(Contents(vvTried))[Slot(b, p) := id]
    {
      SetCellContents(vvTried, Slot(b, p), id, hashing.triedBuckets, hashing.bucketSize);
      vvTried := vvTried[b := vvTried[b][p := id]];
    }

    method SwapRandom(i: nat, j: nat)
      requires CanSwap(mapInfo, vRandom, i, j)
      modifies this`mapInfo, this`vRandom
      ensures St() == AddrState.SwapRandom(old(St()), i, j)
    {
      if i == j {
        assert SwapOrder(vRandom, i, j) == vRandom;
        return;
      }
      assert i < |vRandom| && j < |vRandom|;
      var id1, id2 := vRandom[i], vRandom[j];
      assert id1 in mapInfo && id2 in mapInfo;
      mapInfo := mapInfo[id1 := mapInfo[id1].(randomPos := j)];
      mapInfo := mapInfo[id2 := mapInfo[id2].(randomPos := i)];
      vRandom := vRandom[i := id2];
      vRandom := vRandom[j := id1];
    }

    method Create(a: Address, source: NetAddr) returns (id: int)
      modifies this`nIdCount, this`mapInfo, this`mapAddr, this`vRandom
      ensures id == old(nIdCount) && St() == AddrState.Create(old(St()), a, source)
    {
      id := nIdCount;
      nIdCount := nIdCount + 1;
      mapInfo := mapInfo[id := Info(Record(a.svc, a.services, a.time, source, 0, 0, 0, 0), 0, false, -1)];
      mapAddr := mapAddr[a.svc.net := id];
      mapInfo := mapInfo[id := mapInfo[id].(randomPos := |vRandom|)];
      vRandom := vRandom + [id];
    }

    method Delete(id: int)
      requires CanDelete(St(), id)
      modifies this`mapInfo, this`mapAddr, this`vRandom, this`nNew
      ensures St() == AddrState.Delete(old(St()), id)
    {
      assert id in mapInfo && !mapInfo[id].inTried && mapInfo[id].refCount == 0;
      var net := mapInfo[id].rec.svc.net;
      SwapRandom(mapInfo[id].randomPos, |vRandom| - 1);
      vRandom := vRandom[..|vRandom| - 1];
      mapAddr := mapAddr - {net};
      mapInfo := mapInfo - {id};
      nNew := nNew - 1;
    }

    method ClearNew(bucket: nat, pos: nat)
      requires Shape() && bucket < hashing.newBuckets && pos < hashing.bucketSize
      requires CanClear(St(), Slot(bucket, pos))
      modifies this`mapInfo, this`mapAddr, this`vRandom, this`nNew, this`vvNew
      ensures Shape()
      ensures St() == AddrState.ClearNew(old(St()), Slot(bucket, pos))
    {
      hide CanDelete, Contents, Rectangular, InTable;
      var id := GetNew(bucket, pos);
      if id != -1 {
        assert mapInfo[id].refCount > 0;
        mapInfo := mapInfo[id := mapInfo[id].(refCount := mapInfo[id].refCount - 1)];
        SetNew(bucket, pos, -1);
        assert St() == Drop(old(St()), Slot(bucket, pos));
        if mapInfo[id].refCount == 0 {
          Delete(id);
        }
      }
    }

    method MakeTried(id: int)
      requires Valid() && id in mapInfo && !mapInfo[id].inTried && mapInfo[id].rec.lastSuccess != 0
      modifies this`mapInfo, this`mapAddr, this`vRandom, this`nNew, this`nTried, this`vvNew, this`vvTried
      ensures Shape()
      ensures CanMakeTried(hashing, old(St()), id) && St() == AddrState.MakeTried(hashing, old(St()), id)
    {
      hide CanMakeTried, AddrState.MakeTried, CanEvict, AddrState.Evict, NewSlotsOk, Weak, Contents, Rectangular,
          InTable, AddrState.Promote, AddrState.Unlist;
      ghost var s, g := St(), hashing;
      MakeTriedParts(g, s, id);
      var svc := mapInfo[id].rec.svc;
      Unlist(id);
      assert mapInfo[id].refCount == 0;
      var bucket := hashing.triedBucket(svc);
      var pos := hashing.position(svc, false, bucket);
      MakeRoom(bucket, pos, id);
      Promote(id, bucket, pos);
    }

    /** The middle of MakeTried: evict the incumbent of the tried slot, if there is one. */
    method MakeRoom(bucket: nat, pos: nat, ghost id: int)
      requires Shape() && bucket < hashing.triedBuckets && pos < hashing.bucketSize && Weak(hashing, St(), {id}, 1)
      requires id in mapInfo && !mapInfo[id].inTried && mapInfo[id].refCount == 0
      modifies this`mapInfo, this`mapAddr, this`vRandom, this`nNew, this`nTried, this`vvNew, this`vvTried
      ensures Shape()
      ensures var s, sl := old(St()), Slot(bucket, pos);
        if sl in s.triedTable then CanEvict(hashing, s, sl) && St() == AddrState.Evict(hashing, s, sl) else St() == s
      ensures id in mapInfo && mapInfo[id].rec == old(mapInfo)[id].rec
    {
      hide CanEvict, AddrState.Evict, Weak, Contents, Rectangular, InTable;
      var incumbent := GetTried(bucket, pos);
      if incumbent != -1 {
        EvictKeeps(hashing, St(), Slot(bucket, pos), id);
        Evict(bucket, pos, incumbent);
      }
    }

    /** The end of MakeTried: enter the id into its tried slot. */
    method Promote(id: int, bucket: nat, pos: nat)
      requires Shape() && bucket < hashing.triedBuckets && pos < hashing.bucketSize && id in mapInfo && 0 <= id
      requires hashing.TriedSlot(mapInfo[id].rec.svc) == Slot(bucket, pos)
      modifies this`mapInfo, this`nTried, this`vvTried
      ensures Shape()
      ensures St() == AddrState.Promote(hashing, old(St()), id)
    {
      hide Contents, Rectangular, InTable;
      SetTried(bucket, pos, id);
      nTried := nTried + 1;
      mapInfo := mapInfo[id := mapInfo[id].(inTried := true)];
    }

    /** The start of MakeTried: take the id out of all new buckets. */
    method Unlist(id: int)
      requires Shape() && id in mapInfo && 0 <= id && NewSlotsOk(hashing, mapInfo, Contents(vvNew))
      modifies this`mapInfo, this`nNew, this`vvNew
      ensures Shape()
      ensures St() == AddrState.Unlist(old(St()), id)
    {
      hide Contents, Rectangular, InTable, NewSlotsOk;
      UnlistAll(id);
      nNew := nNew - 1;
    }

    /** One step of the scan: drop the reference in this bucket, if there is one. */
    method UnlistBucket(id: int, bucket: nat, pos: nat)
      requires Shape() && bucket < hashing.newBuckets && pos < hashing.bucketSize && id in mapInfo && 0 <= id
      modifies this`mapInfo, this`vvNew
      ensures Shape()
      ensures var r := UnlistOne(old(mapInfo), old(Contents(vvNew)), id, Slot(bucket, pos));
        mapInfo == r.0 && Contents(vvNew) == r.1
    {
      hide Contents, Rectangular, InTable;
      var held := GetNew(bucket, pos);
      if held == id {
        SetNew(bucket, pos, -1);
        mapInfo := mapInfo[id := mapInfo[id].(refCount := mapInfo[id].refCount - 1)];
      }
    }

    /** The scan of all buckets at the start of MakeTried. */
    method UnlistAll(id: int)
      requires Shape() && id in mapInfo && 0 <= id && NewSlotsOk(hashing, mapInfo, Contents(vvNew))
      modifies this`mapInfo, this`vvNew
      ensures Shape()
      ensures Contents(vvNew) == old(Contents(vvNew)) - RefSlots(old(Contents(vvNew)), id)
      ensures mapInfo == LessRefs(old(mapInfo), id, |RefSlots(old(Contents(vvNew)), id)|)
    {
      ghost var table, infos, g := Contents(vvNew), mapInfo, hashing;
      ScanStart(infos, table, id);
      hide Contents, Rectangular, InTable, NewSlotsOk, RefSlotsBelow, RefSlots, LessRefs, Unlisted, UnlistOne;
      for bucket := 0 to hashing.newBuckets
        invariant Shape() && (mapInfo, Contents(vvNew)) == Unlisted(infos, table, id, bucket)
      {
        var pos := hashing.position(mapInfo[id].rec.svc, true, bucket);
        ScanBucket(g, infos, table, id, bucket, pos);
        UnlistBucket(id, bucket, pos);
      }
      ScanEnd(g, infos, table, id);
    }

    /** Moving the incumbent of a tried slot back to the new table. */
    method Evict(bucket: nat, pos: nat, incumbent: int)
      requires Shape() && bucket < hashing.triedBuckets && pos < hashing.bucketSize
      requires incumbent != -1 && CanEvict(hashing, St(), Slot(bucket, pos))
      requires incumbent == Contents(vvTried)[Slot(bucket, pos)]
      requires var sl := Slot(bucket, pos);
        AddrState.ClearNew(AddrState.Demote(St(), sl), HomeSlot(hashing, St(), sl)).info[incumbent].refCount == 0
      modifies this`mapInfo, this`mapAddr, this`vRandom, this`nNew, this`nTried, this`vvNew, this`vvTried
      ensures Shape() && St() == AddrState.Evict(hashing, old(St()), Slot(bucket, pos))
    {
      hide CanClear, AddrState.ClearNew, Contents, Rectangular, InTable, AddrState.Demote, AddrState.Reference;
      assert incumbent in mapInfo;
      var r := mapInfo[incumbent].rec;
      var home := hashing.newBucket(r.svc.net, r.source);
      var homePos := hashing.position(r.svc, true, home);
      Demote(bucket, pos, incumbent);
      ClearNew(home, homePos);
      Reenter(incumbent, home, homePos);
      nNew := nNew + 1;
    }

    method Demote(bucket: nat, pos: nat, id: int)
      requires Shape() && bucket < hashing.triedBuckets && pos < hashing.bucketSize
      requires id in mapInfo && Slot(bucket, pos) in Contents(vvTried) && Contents(vvTried)[Slot(bucket, pos)] == id
      modifies this`mapInfo, this`nTried, this`vvTried
      ensures Shape() && St() == AddrState.Demote(old(St()), Slot(bucket, pos))
    {
      hide Contents, Rectangular;
      mapInfo := mapInfo[id := mapInfo[id].(inTried := false)];
      SetTried(bucket, pos, -1);
      nTried := nTried - 1;
    }

    /** The evicted entry gets its only reference. */
    method Reenter(id: int, bucket: nat, pos: nat)
      requires Shape() && bucket < hashing.newBuckets && pos < hashing.bucketSize && id in mapInfo && id != -1
      requires mapInfo[id].refCount == 0
      modifies this`mapInfo, this`vvNew
      ensures Shape() && St() == AddrState.Reference(old(St()), id, Slot(bucket, pos))
    {
      hide Contents, Rectangular;
      mapInfo := mapInfo[id := mapInfo[id].(refCount := 1)];
      SetNew(bucket, pos, id);
    }

    /** Entering a reference to `id` into a slot of the new table. */
    method Reference(id: int, bucket: nat, pos: nat)
      requires Shape() && bucket < hashing.newBuckets && pos < hashing.bucketSize && id in mapInfo && id != -1
      modifies this`mapInfo, this`vvNew
      ensures Shape() && St() == AddrState.Reference(old(St()), id, Slot(bucket, pos))
    {
      hide Contents, Rectangular;
      mapInfo := mapInfo[id := mapInfo[id].(refCount := mapInfo[id].refCount + 1)];
      SetNew(bucket, pos, id);
    }

    // --------------------------------------------------------------- operations

    /** The search for a bucket that holds `id`, from a random bucket on. */
    method FindBucket(id: int, start: nat) returns (bucket: int)
      requires Valid() && start < hashing.newBuckets && id in mapInfo && !mapInfo[id].inTried
      ensures 0 <= bucket < hashing.newBuckets
      ensures Holds(Contents(vvNew), Slot(bucket, hashing.position(mapInfo[id].rec.svc, true, bucket)), id)
    {
      hide Weak, Contents, Rectangular, Wrapped, HeldSlot;
      ghost var table := Contents(vvNew);
      ghost var sl := HeldSlot(hashing, St(), id);
      bucket := -1;
      var n := 0;
      ghost var goal := WrapAround(start, sl.bucket, hashing.newBuckets);
      while n < hashing.newBuckets && bucket == -1
        invariant 0 <= n <= hashing.newBuckets && -1 <= bucket < hashing.newBuckets
        invariant bucket == -1 ==> n <= goal
        invariant bucket != -1 ==> Holds(table, Slot(bucket, hashing.position(mapInfo[id].rec.svc, true, bucket)), id)
      {
        var b := Wrapped(n, start, hashing.newBuckets);
        var pos := hashing.position(mapInfo[id].rec.svc, true, b);
        var held := GetNew(b, pos);
        if held == id && held != -1 { bucket := b; }
        n := n + 1;
      }
      assert bucket != -1;
    }

    method Good(svc: Service, testBeforeEvict: bool, time: int, start: nat)
      requires Valid() && 0 < time && start < hashing.newBuckets
      modifies this`mapInfo, this`mapAddr, this`vRandom, this`nNew, this`nTried, this`vvNew, this`vvTried,
               this`nLastGood, this`triedCollisions
      ensures Valid() && St() == AddrOps.Good(hashing, old(St()), svc, testBeforeEvict, time)
      ensures BookOf(St()) == GoodBook(hashing, BookOf(old(St())), svc, testBeforeEvict, time)
    {
      hide Weak, Contents, Rectangular, BookOf, GoodBook, AddrState.MakeTried, CanMakeTried, CollisionsOk, Evolves;
      ghost var s, g := St(), hashing;
      GoodRefines(g, s, svc, testBeforeEvict, time);
      nLastGood := time;
      LastGoodKeeps(g, s, time);
      if svc.net !in mapAddr || mapAddr[svc.net] !in mapInfo || mapInfo[mapAddr[svc.net]].rec.svc != svc {
        return;
      }
      var id := mapAddr[svc.net];
      SetRecordKeeps(g, St(), id, Succeeded(mapInfo[id].rec, time));
      var r := mapInfo[id].rec.(lastSuccess := time, lastTry := time, attempts := 0);
      mapInfo := mapInfo[id := mapInfo[id].(rec := r)];
      if mapInfo[id].inTried {
        return;
      }
      var _ := FindBucket(id, start);
      var bucket := hashing.triedBucket(svc);
      var incumbent := GetTried(bucket, hashing.position(svc, false, bucket));
      if testBeforeEvict && incumbent != -1 {
        if |triedCollisions| < SET_TRIED_COLLISION_SIZE {
          triedCollisions := triedCollisions + {id};
        }
      } else {
        MakeTried(id);
      }
    }

    method Attempt(svc: Service, countFailure: bool, time: int)
      requires Valid() && 0 <= time
      modifies this`mapInfo
      ensures St() == AddrOps.Attempt(hashing, old(St()), svc, countFailure, time)
      ensures Valid()
    {
      hide Weak, Contents, Rectangular, CollisionsOk, Evolves;
      if svc.net !in mapAddr || mapAddr[svc.net] !in mapInfo || mapInfo[mapAddr[svc.net]].rec.svc != svc {
        return;
      }
      var id := mapAddr[svc.net];
      var r := mapInfo[id].rec;
      r := r.(lastTry := time);
      if countFailure && r.lastCountAttempt < nLastGood {
        r := r.(lastCountAttempt := time, attempts := r.attempts + 1);
      }
      mapInfo := mapInfo[id := mapInfo[id].(rec := r)];
    }

    method Connected(svc: Service, time: int)
      requires Valid()
      modifies this`mapInfo
      ensures St() == AddrOps.Connected(hashing, old(St()), svc, time)
      ensures Valid()
    {
      hide Weak, Contents, Rectangular, CollisionsOk, Evolves;
      if svc.net !in mapAddr || mapAddr[svc.net] !in mapInfo || mapInfo[mapAddr[svc.net]].rec.svc != svc {
        return;
      }
      var id := mapAddr[svc.net];
      ghost var i := mapInfo[id];
      assert mapInfo[id := i] == mapInfo;
      if time - mapInfo[id].rec.time > 20 * 60 {
        mapInfo := mapInfo[id := mapInfo[id].(rec := mapInfo[id].rec.(time := ToU32(time)))];
      }
    }

    method SetServices(svc: Service, services: set<nat>)
      requires Valid()
      modifies this`mapInfo
      ensures St() == AddrOps.SetServices(hashing, old(St()), svc, services)
      ensures Valid()
    {
      hide Weak, Contents, Rectangular, CollisionsOk, Evolves;
      if svc.net !in mapAddr || mapAddr[svc.net] !in mapInfo || mapInfo[mapAddr[svc.net]].rec.svc != svc {
        return;
      }
      var id := mapAddr[svc.net];
      mapInfo := mapInfo[id := mapInfo[id].(rec := mapInfo[id].rec.(services := services))];
    }

    /** The last part of Add_: try to enter a reference to `id` into one slot. */
    method Enter(id: int, bucket: nat, pos: nat, now: int)
      requires Shape() && bucket < hashing.newBuckets && pos < hashing.bucketSize && 0 <= id
      requires CanEnter(hashing, St(), id, Slot(bucket, pos))
      modifies this`mapInfo, this`mapAddr, this`vRandom, this`nNew, this`vvNew
      ensures Shape() && St() == AddrOps.Enter(hashing, old(St()), id, Slot(bucket, pos), now)
    {
      hide Weak, Contents, Rectangular, CollisionsOk, Evolves, AddrState.Delete, AddrState.ClearNew,
          AddrState.Reference, CanDelete, CanClear;
      EnterKeeps(hashing, St(), id, Slot(bucket, pos));
      EnterKnown(hashing, St(), id, Slot(bucket, pos));
      var held := GetNew(bucket, pos);
      if held != id {
        var insert := held == -1;
        if !insert {
          var existing := mapInfo[held];
          if IsTerrible(existing.rec, now) || (existing.refCount > 1 && mapInfo[id].refCount == 0) {
            insert := true;
          }
        }
        if insert {
          ClearNew(bucket, pos);
          Reference(id, bucket, pos);
        } else if mapInfo[id].refCount == 0 {
          Delete(id);
        }
      }
    }

    /** Two to the number of references. */
    method Factor(refs: nat) returns (factor: nat)
      ensures factor == Pow(2, refs)
    {
      factor := 1;
      for n := 0 to refs
        invariant factor == Pow(2, n)
      {
        factor := factor * 2;
      }
    }

    /** The periodic update of time and services. */
    method Refresh(r: Record, a: Address, penalty: int, now: int) returns (r': Record)
      ensures r' == Refreshed(r, a, penalty, now)
    {
      r' := r;
      var online := now - a.time < DAY;
      var interval := if online then 60 * 60 else DAY;
      if a.time != 0 && (r.time == 0 || r.time < a.time - interval - penalty) {
        r' := r'.(time := ToU32(Max(0, a.time - penalty)));
      }
      r' := r'.(services := r'.services + a.services);
    }

    method AddKnown(id: int, a: Address, source: NetAddr, penalty: int, now: int, later: int, coin: nat)
      requires Valid() && id in mapInfo
      modifies this`mapInfo, this`mapAddr, this`vRandom, this`nNew, this`vvNew
      ensures Valid() && St() == AddrOps.AddKnown(hashing, old(St()), id, a, source, penalty, now, later, coin)
    {
      hide Weak, Contents, Rectangular, CollisionsOk, Evolves, IsTerrible, AddrOps.Enter, CanEnter, Refreshed, Pow;
      ghost var s, g := St(), hashing;
      AddKnownKeeps(g, s, id, a, source, penalty, now);
      var r := Refresh(mapInfo[id].rec, a, penalty, now);
      mapInfo := mapInfo[id := mapInfo[id].(rec := r)];
      assert St() == SetRecord(s, id, Refreshed(s.info[id].rec, a, penalty, now));
      if a.time == 0 || (r.time != 0 && a.time <= r.time) { return; }
      if mapInfo[id].inTried { return; }
      if mapInfo[id].refCount == NEW_BUCKETS_PER_ADDRESS { return; }
      var factor := Factor(mapInfo[id].refCount);
      if factor > 1 && coin % factor != 0 { return; }
      IdsPositive(g, s, id);
      var bucket := hashing.newBucket(r.svc.net, source);
      Enter(id, bucket, hashing.position(r.svc, true, bucket), later);
    }

    method AddUnknown(a: Address, source: NetAddr, penalty: int, now: int)
      requires Valid() && a.svc.net !in mapAddr
      modifies this`mapInfo, this`mapAddr, this`vRandom, this`nNew, this`vvNew, this`nIdCount
      ensures Valid() && St() == AddrOps.AddUnknown(hashing, old(St()), a, source, penalty, now)
    {
      hide Weak, Contents, Rectangular, CollisionsOk, Evolves, IsTerrible, AddrOps.Enter, CanEnter;
      CreateCountedKeeps(hashing, St(), a, source, penalty);
      var id := Create(a, source);
      var r := mapInfo[id].rec.(time := ToU32(Max(0, mapInfo[id].rec.time - penalty)));
      mapInfo := mapInfo[id := mapInfo[id].(rec := r)];
      nNew := nNew + 1;
      var bucket := hashing.newBucket(a.svc.net, source);
      Enter(id, bucket, hashing.position(a.svc, true, bucket), now);
    }

    /** `now` is the clock as the update of a known entry reads it, `later` as the test of the incumbent does. */
    method Add(a: Address, source: NetAddr, timePenalty: int, now: int, later: int, coin: nat) returns (isNew: bool)
      requires Valid()
      modifies this`mapInfo, this`mapAddr, this`vRandom, this`nNew, this`vvNew, this`nIdCount
      ensures
        var ok := cfg.routable(a.svc.net);
        var r := AddrOps.Add(hashing, old(St()), ok, a, source, timePenalty, now, later, coin);
        Valid() && St() == r.0 && isNew == r.1
      ensures
        var ok := cfg.routable(a.svc.net);
        var b := AddBook(hashing, BookOf(old(St())), ok, a, source, timePenalty, now, later, coin);
        BookOf(St()) == b.0 && isNew == b.1
    {
      hide Weak, Contents, Rectangular, CollisionsOk, Evolves, AddBook, BookOf, AddrOps.AddKnown, AddrOps.AddUnknown;
      AddRefines(hashing, St(), cfg.routable(a.svc.net), a, source, timePenalty, now, later, coin);
      AddrsKnown(hashing, St(), a.svc.net);
      isNew := false;
      if !cfg.routable(a.svc.net) { return; }
      var penalty := if a.svc.net == source then 0 else timePenalty;
      if a.svc.net in mapAddr {
        AddKnown(mapAddr[a.svc.net], a, source, penalty, now, later, coin);
      } else {
        AddUnknown(a, source, penalty, later);
        isNew := true;
      }
    }

    /** The loop of GetAddr_. */
    method DrawAddresses(wanted: nat, clock: nat -> int, draw: nat -> nat) returns (out: seq<Address>)
      requires Valid()
      modifies this`mapInfo, this`vRandom
      ensures Valid() && (St(), out) == GetAddrFrom(hashing, old(St()), 0, [], wanted, clock, draw)
    {
      hide Weak, Contents, Rectangular, CollisionsOk, Evolves, IsTerrible, DrawFrom, AddrState.SwapRandom, GetAddrFrom;
      ghost var s, g := St(), hashing;
      out := [];
      var n := 0;
      while n < |vRandom| && |out| < wanted
        invariant Valid() && n <= |vRandom| == |s.random|
        invariant GetAddrFrom(g, s, 0, [], wanted, clock, draw) == GetAddrFrom(g, St(), n, out, wanted, clock, draw)
      {
        var j := DrawFrom(draw(n), n, |vRandom|);
        DrawNext(g, St(), n, out, wanted, clock, draw);
        SwapRandom(n, j);
        var rec := mapInfo[vRandom[n]].rec;
        if !IsTerrible(rec, clock(n)) {
          out := out + [AddressOf(rec)];
        }
        n := n + 1;
      }
      DrawDone(g, St(), n, out, wanted, clock, draw);
    }

    method GetAddr(maxAddresses: nat, maxPct: nat, clock: nat -> int, draw: nat -> nat) returns (out: seq<Address>)
      requires Valid()
      modifies this`mapInfo, this`vRandom
      ensures Valid() && (St(), out) == AddrOps.GetAddr(hashing, old(St()), maxAddresses, maxPct, clock, draw)
      ensures BookOf(St()) == BookOf(old(St())) && multiset(vRandom) == old(multiset(vRandom))
      ensures HandsOut(mapInfo, vRandom, out, Wanted(|vRandom|, maxAddresses, maxPct), clock)
    {
      hide Weak, Contents, Rectangular, CollisionsOk, Evolves, GetAddrFrom, Wanted, BookOf, HandsOut;
      ghost var s := St();
      var wanted := Wanted(|vRandom|, maxAddresses, maxPct);
      out := DrawAddresses(wanted, clock, draw);
      GetAddrSpec(hashing, s, wanted, clock, draw);
      assert |multiset(vRandom)| == |vRandom| && |multiset(s.random)| == |s.random|;
    }

    /** The smallest id of a nonempty set, where iteration over std::set continues. */
    method Smallest(ids: set<int>) returns (m: int)
      requires ids != {}
      ensures m == MinOf(ids)
    {
      MinExists(ids);
      m :| m in ids && forall x | x in ids :: m <= x;
    }

    method ResolveOne(id: int, c: Clock, start: nat)
      requires Valid() && 0 < c.now && 0 < c.good && start < hashing.newBuckets
      modifies this`mapInfo, this`mapAddr, this`vRandom, this`nNew, this`nTried, this`vvNew, this`vvTried,
               this`nLastGood, this`triedCollisions
      ensures St() == AddrOps.ResolveOne(hashing, old(St()), id, cfg.valid, c)
      ensures Valid() && Resolved(hashing, old(St()), St(), id, cfg.valid, c)
    {
      hide Weak, Contents, Rectangular, CollisionsOk, Evolves, AddrOps.Good, BookOf, GoodBook, Resolved;
      ghost var g := hashing;
      ResolveOneDecides(g, St(), id, cfg.valid, c);
      var erase := false;
      if id !in mapInfo {
        erase := true;
      } else {
        var r := mapInfo[id].rec;
        var bucket := hashing.triedBucket(r.svc);
        var incumbent := GetTried(bucket, hashing.position(r.svc, false, bucket));
        if !cfg.valid(r.svc.net) {
          erase := true;
        } else if incumbent != -1 {
          TriedOccupied(g, St(), g.TriedSlot(r.svc));
          var r' := mapInfo[incumbent].rec;
          if c.now - r'.lastSuccess < REPLACEMENT_SECONDS {
            erase := true;
          } else if c.now - r'.lastTry < REPLACEMENT_SECONDS {
            if c.test - r'.lastTry > 60 {
              Good(r.svc, false, c.good, start);
              erase := true;
            }
          } else if c.test - r.lastSuccess > TEST_WINDOW {
            Good(r.svc, false, c.good, start);
            erase := true;
          }
        } else {
          Good(r.svc, false, c.now, start);
          erase := true;
        }
      }
      if erase {
        triedCollisions := triedCollisions - {id};
      }
    }

    /** Every turn has its own readings of the clock and its own random bucket to start from. */
    method ResolveCollisions(cs: Clocks, start: int -> nat)
      requires Valid() && cs.Positive() && forall id :: start(id) < hashing.newBuckets
      modifies this`mapInfo, this`mapAddr, this`vRandom, this`nNew, this`nTried, this`vvNew, this`vvTried,
               this`nLastGood, this`triedCollisions
      ensures St() == AddrOps.ResolveCollisions(hashing, old(St()), cfg.valid, cs)
      ensures Valid()
    {
      hide Weak, Contents, Rectangular, CollisionsOk, Evolves, AddrOps.ResolveOne;
      ghost var s, g := St(), hashing;
      var pending := triedCollisions;
      while pending != {}
        invariant Valid()
        invariant ResolveFrom(g, s, s.collisions, cfg.valid, cs) == ResolveFrom(g, St(), pending, cfg.valid, cs)
        decreases pending
      {
        var id := Smallest(pending);
        ResolveOne(id, cs.At(id), start(id));
        pending := pending - {id};
      }
    }

    /** `pick` is the id drawn when some collision is recorded. */
    method SelectTriedCollision(pick: int) returns (r: Record)
      requires Valid() && (triedCollisions != {} ==> pick in triedCollisions)
      modifies this`mapInfo, this`triedCollisions
      ensures var t := AddrOps.SelectTriedCollision(hashing, old(St()), pick); St() == t.0 && r == t.1
      ensures CollisionsOk(hashing, old(St())) ==> Valid() && CollisionsOk(hashing, St())
    {
      hide Weak, Contents, Rectangular, Evolves;
      ghost var s, g := St(), hashing;
      if pick in s.collisions { SelectTriedCollisionSafe(g, s, pick); }
      ForgetKeeps(g, s, pick);
      if triedCollisions == {} { return NO_RECORD; }
      if pick !in mapInfo {
        triedCollisions := triedCollisions - {pick};
        return NO_RECORD;
      }
      var svc := mapInfo[pick].rec.svc;
      var bucket := hashing.triedBucket(svc);
      var incumbent := GetTried(bucket, hashing.position(svc, false, bucket));
      if incumbent !in mapInfo {
        mapInfo := mapInfo[incumbent := Info(NO_RECORD, 0, false, -1)];
      }
      r := mapInfo[incumbent].rec;
    }

    /** The assignments of Clear. */
    method Reset(key: nat)
      modifies this
      ensures St() == AddrOps.Empty(key).(collisions := old(triedCollisions))
      ensures hashing == GeometryOf(cfg, key) && Shape()
    {
      hide Contents, Rectangular, GeometryOf, EmptyTable;
      vRandom := [];
      nKey, hashing := key, GeometryOf(cfg, key);
      vvNew := EmptyTable(cfg.newBuckets, cfg.bucketSize);
      vvTried := EmptyTable(cfg.triedBuckets, cfg.bucketSize);
      nIdCount, nTried, nNew, nLastGood, mapInfo, mapAddr := 0, 0, 0, 1, map[], map[];
    }

    /** Clear draws a new key; it leaves the recorded collisions alone. */
    method Clear(key: nat)
      requires key != 0
      modifies this
      ensures St() == AddrOps.Empty(key).(collisions := old(triedCollisions))
      ensures hashing == GeometryOf(cfg, key)
      ensures Valid()
    {
      hide Weak, Contents, Rectangular, GeometryOf;
      Reset(key);
      EmptyReady(hashing, key);
      EmptyCollisions(hashing, key, triedCollisions);
    }

    /** One turn of the loop of Check_ over mapInfo: the codes -1 to -6, -8 and -14. */
    method CheckEntry(n: int) returns (err: int)
      requires n in mapInfo
      modifies this`mapAddr
      ensures (err == 0) == EntryPasses(mapInfo[n], old(mapAddr), vRandom, n)
      ensures mapAddr == old(mapAddr) || mapAddr == Touch(old(mapAddr), mapInfo[n].rec.svc.net)
    {
      var info := mapInfo[n];
      if info.inTried {
        if info.rec.lastSuccess == 0 { return -1; }
        if info.refCount != 0 { return -2; }
      } else {
        if info.refCount < 0 || info.refCount > NEW_BUCKETS_PER_ADDRESS { return -3; }
        if info.refCount == 0 { return -4; }
      }
      mapAddr := Touch(mapAddr, info.rec.svc.net);
      if mapAddr[info.rec.svc.net] != n { return -5; }
      if info.randomPos < 0 || info.randomPos >= |vRandom| || vRandom[info.randomPos] != n { return -14; }
      if info.rec.lastTry < 0 { return -6; }
      if info.rec.lastSuccess < 0 { return -8; }
      return 0;
    }

    /** The loop over mapInfo, with the two collections it builds. */
    method CheckEntries() returns (err: int, setTried: set<int>, mapNew: map<int, int>)
      modifies this`mapAddr
      ensures (err == 0) == EntriesPass(mapInfo, old(mapAddr), vRandom)
      ensures err == 0 ==> setTried == TriedIds(mapInfo) && mapNew == NewLeft(mapInfo, map[])
      ensures Indexed(mapInfo, old(mapAddr)) ==> mapAddr == old(mapAddr)
    {
      hide EntryPasses, SameLookups, Touch, NewLeft, TriedIds, NewIds, NewCounts;
      ghost var addrs := mapAddr;
      var todo := mapInfo.Keys;
      TodoStart(mapInfo, addrs);
      setTried, mapNew, err := {}, map[], 0;
      while todo != {}
        invariant todo <= mapInfo.Keys && err == 0 && SameLookups(addrs, mapAddr)
        invariant forall id | id in mapInfo && id !in todo :: EntryPasses(mapInfo[id], addrs, vRandom, id)
        invariant setTried == TriedBut(mapInfo, todo) && mapNew == NewCounts(mapInfo, todo)
        invariant Indexed(mapInfo, addrs) ==> mapAddr == addrs
        decreases |todo|
      {
        var n := Smallest(todo);
        TodoStep(mapInfo, todo, n);
        LookupsPass(mapInfo[n], addrs, mapAddr, vRandom, n);
        err := CheckEntry(n);
        if err != 0 { return; }
        if mapInfo[n].inTried { setTried := setTried + {n}; } else { mapNew := mapNew[n := mapInfo[n].refCount]; }
        todo := todo - {n};
      }
      NothingSeen(mapInfo, addrs, vRandom);
    }

    /** The scan of vvTried: the codes -11, -17 and -18. */
    method CheckTried(setTried: set<int>) returns (err: int, left: set<int>)
      requires Shape() && setTried == TriedIds(mapInfo)
      ensures (err == 0) == TriedSlotsPass(hashing, mapInfo, Contents(vvTried))
      ensures err == 0 ==> left == TriedLeft(mapInfo, Contents(vvTried))
    {
      hide Contents, Rectangular, Before;
      ghost var t := Contents(vvTried);
      CellsInRange(vvTried, hashing.triedBuckets, hashing.bucketSize);
      BeforeAll(t, hashing.triedBuckets);
      err, left := 0, setTried;
      for n := 0 to hashing.triedBuckets
        invariant TriedSlotsPass(hashing, mapInfo, Before(t, n, 0)) && left == TriedLeft(mapInfo, Before(t, n, 0))
        invariant err == 0
      {
        for i := 0 to hashing.bucketSize
          invariant TriedSlotsPass(hashing, mapInfo, Before(t, n, i)) && left == TriedLeft(mapInfo, Before(t, n, i))
          invariant err == 0
        {
          BeforeNext(t, n, i);
          var id := GetTried(n, i);
          if id != -1 {
            TriedStep(hashing, mapInfo, Before(t, n, i), Slot(n, i), id);
            if id !in left { err := -11; }
            else if hashing.triedBucket(mapInfo[id].rec.svc) != n { err := -17; }
            else if hashing.position(mapInfo[id].rec.svc, false, n) != i { err := -18; }
            if err != 0 {
              assert !TriedSlotPasses(hashing, mapInfo, t[Slot(n, i)], Slot(n, i));
              return;
            }
            left := left - {id};
          }
        }
        BeforeRow(t, n, hashing.bucketSize);
      }
    }

    /** The scan of vvNew: the codes -12 and -19. */
    method CheckNew(mapNew: map<int, int>) returns (err: int, left: map<int, int>)
      requires Shape() && mapNew == NewLeft(mapInfo, map[])
      ensures err == 0 ==> NewSlotsPass(hashing, mapInfo, Contents(vvNew)) && left == NewLeft(mapInfo, Contents(vvNew))
      ensures err != 0 ==> !(NewSlotsPass(hashing, mapInfo, Contents(vvNew)) && RefsCounted(mapInfo, Contents(vvNew)))
    {
      hide Contents, Rectangular, Before, RefSlots, RefsCounted;
      ghost var t := Contents(vvNew);
      CellsInRange(vvNew, hashing.newBuckets, hashing.bucketSize);
      BeforeAll(t, hashing.newBuckets);
      err, left := 0, mapNew;
      for n := 0 to hashing.newBuckets
        invariant NewSlotsPass(hashing, mapInfo, Before(t, n, 0)) && left == NewLeft(mapInfo, Before(t, n, 0))
        invariant err == 0
      {
        for i := 0 to hashing.bucketSize
          invariant NewSlotsPass(hashing, mapInfo, Before(t, n, i)) && left == NewLeft(mapInfo, Before(t, n, i))
          invariant err == 0
        {
          BeforeNext(t, n, i);
          var id := GetNew(n, i);
          if id != -1 {
            if id !in left {
              BeforePart(t, n, i);
              NotListed(hashing, mapInfo, t, Before(t, n, i), Slot(n, i), id);
              return -12, left;
            }
            if hashing.position(mapInfo[id].rec.svc, true, n) != i {
              assert !NewSlotPasses(hashing, mapInfo, t[Slot(n, i)], Slot(n, i));
              return -19, left;
            }
            NewStep(mapInfo, Before(t, n, i), Slot(n, i), id);
            NewSlotStep(hashing, mapInfo, Before(t, n, i), Slot(n, i), id);
            left := if left[id] == 1 then left - {id} else left[id := left[id] - 1];
          }
        }
        BeforeRow(t, n, hashing.bucketSize);
      }
    }

    /** Check_: a result of 0, and what it says about the manager. */
    method Check() returns (err: int)
      requires Shape()
      modifies this`mapAddr
      ensures (err == 0) == Passes(hashing, old(St()))
      ensures Ready(hashing, old(St())) ==> err == 0 && mapAddr == old(mapAddr)
    {
      hide Contents, Rectangular, Weak, EntriesPass, TriedSlotsPass, NewSlotsPass, RefsCounted, TriedIds, NewIds;
      ghost var s := St();
      if Ready(hashing, s) { ConsistentPasses(hashing, s); }
      if |vRandom| != nTried + nNew { return -7; }
      var setTried, mapNew;
      err, setTried, mapNew := CheckEntries();
      if err != 0 { return; }
      CountLeft(mapInfo, s.addrs, vRandom);
      if |setTried| != nTried { return -9; }
      if |mapNew| != nNew { return -10; }
      err, setTried := CheckTried(setTried);
      if err != 0 { return; }
      err, mapNew := CheckNew(mapNew);
      if err != 0 { return; }
      NothingLeft(mapInfo, s.triedTable, s.newTable);
      if |setTried| != 0 { return -13; }
      if |mapNew| != 0 { return -15; }
      if nKey == 0 { return -16; }
      return 0;
    }

    /** The entries that Serialize writes first, or second when `tried`, and the index of every id. */
    method WriteEntries(tried: bool) returns (out: seq<Record>, index: map<int, nat>)
      requires Valid()
      ensures out == Written(mapInfo, nIdCount, tried)
      ensures !tried ==> Ranked(mapInfo, index)
    {
      hide Weak, Contents, Rectangular, Picked, Persist, Written, RankedBelow, Ranked;
      WrittenStart(mapInfo, tried);
      out, index := [], map[];
      for id := 0 to nIdCount
        invariant out == Written(mapInfo, id, tried) && (!tried ==> RankedBelow(mapInfo, index, id))
      {
        WrittenNext(mapInfo, id, tried);
        if !tried { RankedNext(mapInfo, index, id); }
        if id in mapInfo {
          index := index[id := |out|];
          if Picked(mapInfo[id], tried) {
            WrittenRoom(hashing, St(), tried, id);
            assert |out| != if tried then nTried else nNew;
            out := out + [Persist(mapInfo[id].rec)];
          }
        }
      }
      if !tried { AllRanked(hashing, St(), index); }
    }

    /** The indices of the entries of one bucket. */
    method WriteBucket(bucket: nat, index: map<int, nat>) returns (list: seq<int>)
      requires Valid() && bucket < hashing.newBuckets && Ranked(mapInfo, index)
      ensures list == Indices(mapInfo, Contents(vvNew), bucket, hashing.bucketSize)
    {
      hide Weak, Contents, Rectangular, Rank;
      ghost var g, s := hashing, St();
      var nSize := 0;
      for i := 0 to hashing.bucketSize
        invariant nSize == |Indices(mapInfo, Contents(vvNew), bucket, i)|
      {
        var id := GetNew(bucket, i);
        if id != -1 { nSize := nSize + 1; }
      }
      list := [];
      for i := 0 to hashing.bucketSize
        invariant list == Indices(mapInfo, Contents(vvNew), bucket, i)
      {
        var id := GetNew(bucket, i);
        if id != -1 {
          SlotInRange(g, s, Slot(bucket, i));
          list := list + [index[id]];
        }
      }
      assert |list| == nSize;
    }

    method Serialize(asmapVersion: nat) returns (st: Stored)
      requires Valid()
      ensures st == Save(hashing, St(), asmapVersion)
    {
      hide Weak, Contents, Rectangular, IdList, Ranked, Indices;
      var newInfos, index := WriteEntries(false);
      var triedInfos, unused := WriteEntries(true);
      var buckets := [];
      for bucket := 0 to hashing.newBuckets
        invariant |buckets| == bucket
        invariant forall b | 0 <= b < bucket :: buckets[b] == Indices(mapInfo, Contents(vvNew), b, hashing.bucketSize)
      {
        var list := WriteBucket(bucket, index);
        buckets := buckets + [list];
      }
      assert buckets == AllIndices(mapInfo, Contents(vvNew), hashing.newBuckets, hashing.bucketSize);
      st := Stored(3, 32, nKey, nNew, nTried, FlipBit30(hashing.newBuckets), newInfos, triedInfos, buckets,
          asmapVersion);
    }

    method ReadNew(infos: seq<Record>)
      requires mapInfo == map[] && mapAddr == map[] && vRandom == []
      modifies this`mapInfo, this`mapAddr, this`vRandom
      ensures var c := LoadNew(infos, |infos|); mapInfo == c.info && mapAddr == c.addrs && vRandom == c.random
    {
      for n := 0 to |infos|
        invariant var c := LoadNew(infos, n); mapInfo == c.info && mapAddr == c.addrs && vRandom == c.random
      {
        mapInfo := mapInfo[n := Info(infos[n], 0, false, |vRandom|)];
        mapAddr := mapAddr[infos[n].svc.net := n];
        vRandom := vRandom + [n];
      }
    }

    ghost function CoreOf(lost: nat): Core
      reads this
    {
      Core(mapInfo, mapAddr, vRandom, Contents(vvTried), nIdCount, lost)
    }

    method ReadTried(infos: seq<Record>) returns (lost: nat)
      requires Shape()
      modifies this`mapInfo, this`mapAddr, this`vRandom, this`vvTried, this`nIdCount
      ensures Shape() && CoreOf(lost) == LoadTried(hashing, old(CoreOf(0)), infos, |infos|)
    {
      hide Contents, Rectangular;
      lost := 0;
      ghost var c := CoreOf(0);
      for n := 0 to |infos|
        invariant Shape() && CoreOf(lost) == LoadTried(hashing, c, infos, n)
      {
        var r := infos[n];
        var bucket := hashing.triedBucket(r.svc);
        var pos := hashing.position(r.svc, false, bucket);
        var there := GetTried(bucket, pos);
        if there == -1 {
          mapInfo := mapInfo[nIdCount := Info(r, 0, true, |vRandom|)];
          vRandom := vRandom + [nIdCount];
          mapAddr := mapAddr[r.svc.net := nIdCount];
          SetTried(bucket, pos, nIdCount);
          nIdCount := nIdCount + 1;
        } else {
          lost := lost + 1;
        }
      }
    }

    ghost function ShelfOf(): Shelf reads this { Shelf(mapInfo, Contents(vvNew)) }

    /** One turn of the loop that puts the new entries back into the new table. */
    method PlaceEntry(n: nat, bucket: nat, usable: bool)
      requires Shape() && n in mapInfo && (usable ==> bucket < hashing.newBuckets)
      modifies this`mapInfo, this`vvNew
      ensures Shape() && ShelfOf() == Place(hashing, usable, bucket, old(ShelfOf()), n)
    {
      hide Contents, Rectangular;
      var r := mapInfo[n].rec;
      var pos := hashing.position(r.svc, true, bucket);
      var there := 0;
      if usable { there := GetNew(bucket, pos); }
      if usable && there == -1 && mapInfo[n].refCount < NEW_BUCKETS_PER_ADDRESS {
        SetNew(bucket, pos, n);
        mapInfo := mapInfo[n := mapInfo[n].(refCount := mapInfo[n].refCount + 1)];
      } else {
        var home := hashing.newBucket(r.svc.net, r.source);
        var homePos := hashing.position(r.svc, true, home);
        there := GetNew(home, homePos);
        if there == -1 {
          SetNew(home, homePos, n);
          mapInfo := mapInfo[n := mapInfo[n].(refCount := mapInfo[n].refCount + 1)];
        }
      }
    }

    method PlaceEntries(count: nat, m: map<int, nat>, usable: bool)
      requires Shape() && 0 < hashing.newBuckets && (forall k | 0 <= k < count :: k in mapInfo)
      requires (usable ==> ValuesBelow(m, hashing.newBuckets))
      modifies this`mapInfo, this`vvNew
      ensures Shape() && ShelfOf() == PlaceAll(hashing, usable, m, old(ShelfOf()), count)
    {
      hide Contents, Rectangular, Place;
      ghost var h := ShelfOf();
      for n := 0 to count
        invariant Shape() && ShelfOf() == PlaceAll(hashing, usable, m, h, n)
      {
        PlaceEntry(n, NotedBucket(m, n), usable);
      }
    }

    /** The loop that deletes entries that found no slot; the asserts of Delete hold whatever was read. */
    method PruneStrays()
      requires RandomOk(mapInfo, vRandom)
      modifies this`mapInfo, this`mapAddr, this`vRandom, this`nNew
      ensures RandomOk(old(mapInfo), old(vRandom)) && St() == Prune(old(St()), 0, nIdCount)
    {
      hide RandomOk, AddrState.Delete, Contents;
      ghost var s := St();
      for id := 0 to nIdCount
        invariant RandomOk(mapInfo, vRandom) && Prune(s, 0, nIdCount) == Prune(St(), id, nIdCount)
      {
        if Stray(mapInfo, id) {
          DeleteRandom(St(), id);
          Delete(id);
        }
      }
    }

    /** Entries of both kinds, into empty indexes and an empty tried table. */
    method ReadEntries(st: Stored) returns (lost: nat)
      requires Complete(st) && Shape() && mapInfo == map[] && mapAddr == map[] && vRandom == []
      requires Contents(vvTried) == map[]
      modifies this`mapInfo, this`mapAddr, this`vRandom, this`vvTried, this`nIdCount
      ensures Shape() && CoreOf(lost) == Loaded(hashing, st)
    {
      hide Contents, Rectangular, LoadNew, LoadTried;
      ReadNew(st.newInfos);
      nIdCount := |st.newInfos|;
      StartsEmpty(st.newInfos);
      lost := ReadTried(st.triedInfos);
    }

    /** The new table and the pruning. */
    method ReadTable(st: Stored, asmapVersion: nat, ghost lost: nat)
      requires Complete(st) && Shape() && 0 < hashing.newBuckets && CoreOf(lost) == Loaded(hashing, st)
      requires Contents(vvNew) == map[]
      requires nKey == st.key && nNew == st.nNew && nTried == st.nTried - lost && nLastGood == 1
      modifies this`mapInfo, this`mapAddr, this`vRandom, this`vvNew, this`nNew
      ensures Shape() && St() == Load(hashing, st, asmapVersion, triedCollisions)
    {
      hide Contents, Rectangular, Loaded, PlaceAll, NoteBuckets, Prune, RandomOk;
      LoadedIds(hashing, st);
      var m := ReadBuckets(st.buckets, nNew);
      NotedInRange(st.buckets, |st.buckets|, nNew);
      PlaceEntries(|st.newInfos|, m, st.format >= 2 && BucketCount(st) == hashing.newBuckets
          && asmapVersion == st.asmapVersion);
      ShelvedRandom(hashing, st, asmapVersion, triedCollisions);
      assert St() == Shelved(hashing, st, asmapVersion, triedCollisions);
      PruneStrays();
    }

    /** Unserialize into a cleared manager, whose first key is thrown away. */
    method Unserialize(st: Stored, asmapVersion: nat, key: nat) returns (threw: bool)
      requires Complete(st) && key != 0
      modifies this
      ensures threw == Refused(GeometryOf(cfg, st.key), st)
      ensures !threw ==>
        && hashing == GeometryOf(cfg, st.key) && Shape()
        && St() == Load(hashing, st, asmapVersion, old(triedCollisions))
    {
      hide Contents, Rectangular, GeometryOf, Weak, Loaded, Load;
      Clear(key);
      nKey, hashing := st.key, GeometryOf(cfg, st.key);
      threw := st.format > 3 || st.keySize != 32 || st.nNew > cfg.newBuckets * cfg.bucketSize
          || st.nTried > cfg.triedBuckets * cfg.bucketSize;
      if threw { return; }
      nNew, nTried := st.nNew, st.nTried;
      var lost := ReadEntries(st);
      nTried := nTried - lost;
      ReadTable(st, asmapVersion, lost);
    }
  }

  lemma {:induction false} StartsEmpty(infos: seq<Record>)
    ensures LoadNew(infos, |infos|).tried == map[] && LoadNew(infos, |infos|).lost == 0
  {
    NewStartsEmpty(infos, |infos|);
  }

  lemma {:induction false} NewStartsEmpty(infos: seq<Record>, n: nat)
    requires n <= |infos|
    ensures LoadNew(infos, n).tried == map[] && LoadNew(infos, n).lost == 0
  {
    if n > 0 { NewStartsEmpty(infos, n - 1); }
  }

  /** entryToBucket. */
  method ReadBuckets(buckets: seq<seq<int>>, nNew: int) returns (m: map<int, nat>)
    ensures m == NoteBuckets(buckets, |buckets|, nNew)
  {
    m := map[];
    for b := 0 to |buckets|
      invariant m == NoteBuckets(buckets, b, nNew)
    {
      ghost var before := m;
      for n := 0 to |buckets[b]|
        invariant m == NoteIndices(before, buckets[b], n, b, nNew)
      {
        var index := buckets[b][n];
        if 0 <= index < nNew { m := m[index := b]; }
      }
    }
  }

  /**
   Serialize of one manager read by another with tables of the same size: accepted and
   consistent again, with entries of the first only, and those that are missing have
   lost their slot to another. Under the same asmap none is missing.
   */
  method Transfer(from: Manager, to: Manager, asmapVersion: nat, newVersion: nat, key: nat)
    requires from.Valid() && from != to && from.hashing == GeometryOf(from.cfg, from.nKey) && key != 0
    requires SameSizes(from.cfg, to.cfg)
    modifies to
    ensures to.Valid() && Survivors(from.St(), to.St()) && LostToOthers(to.hashing, from.St(), to.St())
    ensures asmapVersion != newVersion ==> AllAtHome(to.hashing, to.St())
    ensures from.cfg == to.cfg && asmapVersion == newVersion ==>
        to.hashing == from.hashing && SameEntries(from.St(), to.St())
  {
    hide Weak, Contents, Rectangular, GeometryOf, Load, Save, Refused, Complete, SameEntries, Survivors, LostToOthers,
        AllAtHome;
    ghost var s, g := from.St(), GeometryOf(to.cfg, from.nKey);
    SaveLoad(from.hashing, s, asmapVersion, to.triedCollisions);
    ReloadAnywhere(from.hashing, s, asmapVersion, g, newVersion, to.triedCollisions);
    var st := from.Serialize(asmapVersion);
    SavedKey(from.hashing, s, asmapVersion);
    var threw := to.Unserialize(st, newVersion, key);
    assert from.St() == s;
  }

  predicate SameSizes(a: Params, b: Params) {
    a.newBuckets == b.newBuckets && a.triedBuckets == b.triedBuckets && a.bucketSize == b.bucketSize
  }

  lemma SavedKey(g: Geometry, s: State, asmapVersion: nat)
    ensures Save(g, s, asmapVersion).key == s.key
  {}
}
