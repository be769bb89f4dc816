/**
 What the address manager is for, without ids, reference counts, counters or the
 shuffled vector: two tables of addresses and a record for every address that
 some slot holds. The operations of AddrOps are proved to act on this book.
 */
module AddrBook {
  import opened AddrTypes
  import opened AddrState
  import opened AddrOps
  import opened Powers
  import opened Basics

  datatype Book = Book(newTable: map<Slot, NetAddr>, triedTable: map<Slot, NetAddr>, records: map<NetAddr, Record>)

  /** Records live exactly as long as some slot holds their address. */
  function Collect(newTable: map<Slot, NetAddr>, triedTable: map<Slot, NetAddr>, records: map<NetAddr, Record>): Book {
    Book(newTable, triedTable, map a | a in records && (a in newTable.Values || a in triedTable.Values) :: records[a])
  }

  function SlotsOf(table: map<Slot, NetAddr>, a: NetAddr): set<Slot> { set sl | sl in table && table[sl] == a }

  /** Move an address from the new table to its tried slot; an incumbent falls back to its own new slot. */
  function Move(g: Geometry, b: Book, a: NetAddr): Book
    requires a in b.records
  {
    var sl := g.TriedSlot(b.records[a].svc);
    var rest := b.newTable - SlotsOf(b.newTable, a);
    var newTable :=
      if sl in b.triedTable && b.triedTable[sl] in b.records then
        var r := b.records[b.triedTable[sl]];
        rest[g.NewSlot(r.svc, r.source) := b.triedTable[sl]]
      else rest;
    Collect(newTable, b.triedTable[sl := a], b.records)
  }

  function GoodBook(g: Geometry, b: Book, svc: Service, testBeforeEvict: bool, time: int): Book {
    var a := svc.net;
    if a !in b.records || b.records[a].svc != svc then b
    else
      var b1 := b.(records := b.records[a := Succeeded(b.records[a], time)]);
      if a in b.triedTable.Values || (testBeforeEvict && g.TriedSlot(svc) in b.triedTable) then b1
      else Move(g, b1, a)
  }

  /** Offer the slot `sl` of the new table to an address; an address without any slot is forgotten. */
  function Offer(b: Book, a: NetAddr, sl: Slot, now: int): Book {
    if sl in b.newTable && b.newTable[sl] == a then b
    else if sl in b.newTable && b.newTable[sl] in b.records
            && !IsTerrible(b.records[b.newTable[sl]], now)
            && !(|SlotsOf(b.newTable, b.newTable[sl])| > 1 && |SlotsOf(b.newTable, a)| == 0)
    then Collect(b.newTable, b.triedTable, b.records)
    else Collect(b.newTable[sl := a], b.triedTable, b.records)
  }

  function AddBook(g: Geometry, b: Book, routable: bool, a: Address, source: NetAddr, penalty: int, now: int,
      later: int, draw: nat): (Book, bool) {
    var net := a.svc.net;
    var penalty' := if net == source then 0 else penalty;
    if !routable then (b, false)
    else if net in b.records then
      var r := Refreshed(b.records[net], a, penalty', now);
      var b1 := b.(records := b.records[net := r]);
      var refs := |SlotsOf(b.newTable, net)|;
      if a.time == 0 || (r.time != 0 && a.time <= r.time) || net in b.triedTable.Values
         || refs == NEW_BUCKETS_PER_ADDRESS || draw % Pow(2, refs) != 0
      then (b1, false)
      else (Offer(b1, net, g.NewSlot(r.svc, source), later), false)
    else
      var b1 := b.(records := b.records[net := Announced(a, source, penalty')]);
      (Offer(b1, net, g.NewSlot(a.svc, source), later), true)
  }

  // ------------------------------------------------------------------- abstraction

  function NetTable(info: Infos, table: map<Slot, int>): map<Slot, NetAddr> {
    map sl | sl in table && table[sl] in info :: info[table[sl]].rec.svc.net
  }

  function RecordsOf(info: Infos, addrs: map<NetAddr, int>): map<NetAddr, Record> {
    map a | a in addrs && addrs[a] in info :: info[addrs[a]].rec
  }

  function BookOf(s: State): Book {
    Book(NetTable(s.info, s.newTable), NetTable(s.info, s.triedTable), RecordsOf(s.info, s.addrs))
  }

  /** Tables that only mention known ids. */
  ghost predicate Covered(info: Infos, table: map<Slot, int>) { forall sl | sl in table :: table[sl] in info }

  lemma WeakCovered(g: Geometry, s: State, zero: set<int>, off: int)
    requires Weak(g, s, zero, off)
    ensures Covered(s.info, s.newTable) && Covered(s.info, s.triedTable) && AddrsOk(s.info, s.addrs)
  {}

  lemma SlotsMatch(info: Infos, addrs: map<NetAddr, int>, table: map<Slot, int>, id: int)
    requires AddrsOk(info, addrs) && Covered(info, table) && id in info
    ensures SlotsOf(NetTable(info, table), info[id].rec.svc.net) == RefSlots(table, id)
    ensures NetTable(info, table - RefSlots(table, id)) == NetTable(info, table) - RefSlots(table, id)
  {
    forall sl ensures sl in SlotsOf(NetTable(info, table), info[id].rec.svc.net) <==> sl in RefSlots(table, id) {
      if sl in table {
        var k := table[sl];
        assert k in info;
      }
    }
  }

  lemma NetTableSet(info: Infos, table: map<Slot, int>, sl: Slot, id: int)
    requires id in info
    ensures NetTable(info, table[sl := id]) == NetTable(info, table)[sl := info[id].rec.svc.net]
  {}

  /** In a consistent state every record is held by some slot. */
  lemma EveryRecordHeld(g: Geometry, s: State, id: int)
    requires Consistent(g, s) && id in s.info
    ensures s.info[id].inTried ==> s.info[id].rec.svc.net in NetTable(s.info, s.triedTable).Values
    ensures !s.info[id].inTried ==> s.info[id].rec.svc.net in NetTable(s.info, s.newTable).Values
    ensures !s.info[id].inTried ==> s.info[id].rec.svc.net !in NetTable(s.info, s.triedTable).Values
  {
    hide RandomOk, CountsOk, TimesOk;
    var a := s.info[id].rec.svc.net;
    if s.info[id].inTried {
      var sl := g.TriedSlot(s.info[id].rec.svc);
      assert sl in NetTable(s.info, s.triedTable) && NetTable(s.info, s.triedTable)[sl] == a;
    } else {
      assert |RefSlots(s.newTable, id)| != 0;
      var sl :| sl in RefSlots(s.newTable, id);
      assert sl in NetTable(s.info, s.newTable) && NetTable(s.info, s.newTable)[sl] == a;
      forall sl' | sl' in NetTable(s.info, s.triedTable) ensures NetTable(s.info, s.triedTable)[sl'] != a {
        var k := s.triedTable[sl'];
        assert k in s.info && k != id;
      }
    }
  }

  lemma NetTableInherited(m: Infos, n: Infos, table: map<Slot, int>)
    requires Covered(m, table) && forall k | k in m :: k in n && m[k].rec == n[k].rec
    ensures NetTable(m, table) == NetTable(n, table)
  {
    forall sl | sl in table
      ensures table[sl] in m && table[sl] in n && m[table[sl]].rec == n[table[sl]].rec
    {
      var k := table[sl];
      assert k in m;
    }
  }

  /** The book of a consistent state is determined by its tables and the records it inherited. */
  lemma Rebook(g: Geometry, s: State, t: State)
    requires AddrsOk(s.info, s.addrs) && Consistent(g, t)
    requires forall k | k in t.info :: k in s.info && t.info[k].rec == s.info[k].rec
    ensures BookOf(t) == Collect(NetTable(s.info, t.newTable), NetTable(s.info, t.triedTable),
        RecordsOf(s.info, s.addrs))
  {
    WeakCovered(g, t, {}, 0);
    NetTableInherited(t.info, s.info, t.newTable);
    NetTableInherited(t.info, s.info, t.triedTable);
    var c := Collect(NetTable(s.info, t.newTable), NetTable(s.info, t.triedTable), RecordsOf(s.info, s.addrs));
    RebookRecords(g, s, t, c);
  }

  lemma RebookRecords(g: Geometry, s: State, t: State, c: Book)
    requires AddrsOk(s.info, s.addrs) && Consistent(g, t)
    requires forall k | k in t.info :: k in s.info && t.info[k].rec == s.info[k].rec
    requires c == Collect(NetTable(t.info, t.newTable), NetTable(t.info, t.triedTable), RecordsOf(s.info, s.addrs))
    ensures RecordsOf(t.info, t.addrs) == c.records
  {
    hide Weak, NetTable;
    var mine := RecordsOf(t.info, t.addrs);
    WeakCovered(g, t, {}, 0);
    forall a | a in mine ensures a in c.records && c.records[a] == mine[a] {
      var k := t.addrs[a];
      EveryRecordHeld(g, t, k);
    }
    forall a | a in c.records ensures a in mine {
      HeldHasRecord(t, a);
    }
  }

  lemma HeldHasRecord(t: State, a: NetAddr)
    requires AddrsOk(t.info, t.addrs)
    requires a in NetTable(t.info, t.newTable).Values || a in NetTable(t.info, t.triedTable).Values
    ensures a in RecordsOf(t.info, t.addrs)
  {
    if a in NetTable(t.info, t.newTable).Values {
      var sl :| sl in NetTable(t.info, t.newTable) && NetTable(t.info, t.newTable)[sl] == a;
      var k := t.newTable[sl];
      assert k in t.info;
    } else {
      var sl :| sl in NetTable(t.info, t.triedTable) && NetTable(t.info, t.triedTable)[sl] == a;
      var k := t.triedTable[sl];
      assert k in t.info;
    }
  }

  // -------------------------------------------------------------------- refinement

  /** An update of one record that keeps the service shows up as just that. */
  lemma SetRecordBook(g: Geometry, s: State, id: int, r: Record)
    requires Ready(g, s) && id in s.info && r.svc == s.info[id].rec.svc
    ensures var b := BookOf(s); BookOf(SetRecord(s, id, r)) == b.(records := b.records[r.svc.net := r])
  {
    WeakCovered(g, s, {}, 0);
    hide Weak, NetTable, RecordsOf, AddrsOk, Covered;
    SetRecordTable(s.info, s.newTable, id, r);
    SetRecordTable(s.info, s.triedTable, id, r);
    SetRecordRecords(s.info, s.addrs, id, r);
  }

  lemma SetRecordRecords(info: Infos, addrs: map<NetAddr, int>, id: int, r: Record)
    requires id in info && r.svc == info[id].rec.svc && AddrsOk(info, addrs)
    ensures RecordsOf(info[id := info[id].(rec := r)], addrs) == RecordsOf(info, addrs)[r.svc.net := r]
  {}

  lemma RecordAt(info: Infos, addrs: map<NetAddr, int>, id: int)
    requires id in info && AddrsOk(info, addrs)
    ensures info[id].rec.svc.net in RecordsOf(info, addrs)
    ensures RecordsOf(info, addrs)[info[id].rec.svc.net] == info[id].rec
  {}

  lemma NetTableAt(info: Infos, table: map<Slot, int>, sl: Slot)
    requires Covered(info, table)
    ensures sl in NetTable(info, table) <==> sl in table
    ensures sl in table ==> table[sl] in info && NetTable(info, table)[sl] == info[table[sl]].rec.svc.net
  {}

  lemma SetRecordTable(info: Infos, table: map<Slot, int>, id: int, r: Record)
    requires id in info && r.svc == info[id].rec.svc && Covered(info, table)
    ensures NetTable(info[id := info[id].(rec := r)], table) == NetTable(info, table)
  {
    forall sl | sl in table ensures table[sl] in info {}
  }

  lemma FindBook(g: Geometry, s: State, svc: Service)
    requires Ready(g, s)
    ensures var b := BookOf(s);
      && (FindExact(s, svc).Some? <==> svc.net in b.records && b.records[svc.net].svc == svc)
      && (FindExact(s, svc).Some? ==>
            var id := FindExact(s, svc).value;
            && b.records[svc.net] == s.info[id].rec && s.addrs[svc.net] == id
            && (s.info[id].inTried <==> svc.net in b.triedTable.Values))
  {
    if FindExact(s, svc).Some? {
      EveryRecordHeld(g, s, FindExact(s, svc).value);
    }
  }

  /** Good_ on the book: nothing, new statistics, or a move to the tried slot. */
  lemma GoodRefines(g: Geometry, s: State, svc: Service, testBeforeEvict: bool, time: int)
    requires Ready(g, s) && 0 < time
    ensures BookOf(Good(g, s, svc, testBeforeEvict, time)) == GoodBook(g, BookOf(s), svc, testBeforeEvict, time)
  {
    hide Weak, CollisionsOk, NetTable, RecordsOf, Move, MakeTried;
    var s0 := s.(lastGood := time);
    LastGoodKeeps(g, s, time);
    FindBook(g, s0, svc);
    if FindExact(s0, svc).Some? {
      var id := FindExact(s0, svc).value;
      var r := Succeeded(s0.info[id].rec, time);
      SetRecordKeeps(g, s0, id, r);
      SetRecordBook(g, s0, id, r);
      var s1 := SetRecord(s0, id, r);
      if !s1.info[id].inTried {
        MakeTriedBook(g, s1, id);
        TriedKeysBook(g, s1);
      }
    }
  }

  lemma TriedKeysBook(g: Geometry, s: State)
    requires Ready(g, s)
    ensures BookOf(s).triedTable.Keys == s.triedTable.Keys && BookOf(s).newTable.Keys == s.newTable.Keys
  {
    WeakCovered(g, s, {}, 0);
  }

  lemma MakeTriedBook(g: Geometry, s: State, id: int)
    requires Ready(g, s) && id in s.info && !s.info[id].inTried && s.info[id].rec.lastSuccess != 0
    ensures s.info[id].rec.svc.net in BookOf(s).records && CanMakeTried(g, s, id)
    ensures BookOf(MakeTried(g, s, id)) == Move(g, BookOf(s), s.info[id].rec.svc.net)
  {
    WeakCovered(g, s, {}, 0);
    MakeTriedKeeps(g, s, id);
    hide Weak, NetTable, RecordsOf, MakeTried, CanMakeTried, AddrsOk, Covered, Unlist, Evict;
    Rebook(g, s, MakeTried(g, s, id));
    var sl := g.TriedSlot(s.info[id].rec.svc);
    SlotsMatch(s.info, s.addrs, s.newTable, id);
    NetTableSet(s.info, s.triedTable, sl, id);
    NetTableAt(s.info, s.triedTable, sl);
    RecordAt(s.info, s.addrs, id);
    if sl in s.triedTable {
      var k := s.triedTable[sl];
      RecordAt(s.info, s.addrs, k);
      NetTableSet(s.info, s.newTable - RefSlots(s.newTable, id), HomeSlot(g, s, sl), k);
    }
  }

  /** The tests of Add_ on one slot, read off the book. */
  lemma SlotBook(g: Geometry, s: State, id: int, sl: Slot, now: int)
    requires CanEnter(g, s, id, sl)
    ensures var b, a := BookOf(s), s.info[id].rec.svc.net;
      && (Holds(s.newTable, sl, id) <==> sl in b.newTable && b.newTable[sl] == a)
      && s.info[id].refCount == |SlotsOf(b.newTable, a)|
      && (MayInsert(s, id, sl, now) <==>
            !(sl in b.newTable && b.newTable[sl] in b.records && !IsTerrible(b.records[b.newTable[sl]], now)
              && !(|SlotsOf(b.newTable, b.newTable[sl])| > 1 && |SlotsOf(b.newTable, a)| == 0)))
  {
    WeakCovered(g, s, {id}, 0);
    RefCountBook(g, s, {id}, id);
    NetTableAt(s.info, s.newTable, sl);
    if sl in s.newTable {
      var k := s.newTable[sl];
      RecordAt(s.info, s.addrs, k);
      RefCountBook(g, s, {id}, k);
      RecordAt(s.info, s.addrs, id);
      NetsTellApart(s.info, s.addrs, id, k);
    }
    hide Weak, NetTable, RecordsOf, AddrsOk, Covered, IsTerrible;
  }

  lemma NetsTellApart(info: Infos, addrs: map<NetAddr, int>, i: int, j: int)
    requires AddrsOk(info, addrs) && i in info && j in info
    ensures info[i].rec.svc.net == info[j].rec.svc.net <==> i == j
  {}

  lemma RefCountBook(g: Geometry, s: State, zero: set<int>, id: int)
    requires Weak(g, s, zero, 0) && id in s.info
    ensures s.info[id].refCount == |SlotsOf(BookOf(s).newTable, s.info[id].rec.svc.net)|
  {
    WeakCovered(g, s, zero, 0);
    SlotsMatch(s.info, s.addrs, s.newTable, id);
  }

  lemma InsertBook(g: Geometry, s: State, id: int, sl: Slot)
    requires CanEnter(g, s, id, sl) && !Holds(s.newTable, sl, id)
    ensures CanClear(s, sl) && id in ClearNew(s, sl).info
    ensures var b := BookOf(s);
      BookOf(Reference(ClearNew(s, sl), id, sl)) == Collect(b.newTable[sl := s.info[id].rec.svc.net], b.triedTable,
          b.records)
  {
    hide Weak, NetTable, RecordsOf, AddrsOk, Covered, CollisionsOk, ClearNew, CanClear, Collect, Evolves;
    WeakCovered(g, s, {id}, 0);
    EnterInsert(g, s, id, sl);
    ClearSlot(g, s, id, sl);
    Rebook(g, s, Reference(ClearNew(s, sl), id, sl));
    assert s.newTable[sl := id] == (s.newTable - {sl})[sl := id];
    NetTableSet(s.info, s.newTable, sl, id);
  }

  lemma RefuseBook(g: Geometry, s: State, id: int)
    requires g.InRange() && Weak(g, s, {id}, 0) && id in s.info && !s.info[id].inTried
    ensures s.info[id].refCount == 0 ==> CanDelete(s, id)
    ensures var b := BookOf(s);
      BookOf(if s.info[id].refCount == 0 then Delete(s, id) else s) == Collect(b.newTable, b.triedTable, b.records)
  {
    WeakCovered(g, s, {id}, 0);
    if s.info[id].refCount == 0 {
      hide Weak, NetTable, RecordsOf, AddrsOk, Covered, Collect;
      DeleteKeeps(g, s, id, {id}, 0);
      assert {id} - {id} == {};
      Rebook(g, s, Delete(s, id));
    } else {
      assert {} + {id} == {id};
      RefCountBook(g, s, {id}, id);
      WeakZero(g, s, {}, {id}, 0);
      hide Weak, NetTable, RecordsOf, AddrsOk, Covered, Collect;
      Rebook(g, s, s);
    }
  }

  lemma EnterBook(g: Geometry, s: State, id: int, sl: Slot, now: int)
    requires CanEnter(g, s, id, sl)
    ensures BookOf(Enter(g, s, id, sl, now)) == Offer(BookOf(s), s.info[id].rec.svc.net, sl, now)
  {
    SlotBook(g, s, id, sl, now);
    RefuseBook(g, s, id);
    hide Weak, BookOf, IsTerrible, CollisionsOk, MayInsert, Collect, Delete, Reference, ClearNew, CanDelete, CanClear;
    if !Holds(s.newTable, sl, id) {
      InsertBook(g, s, id, sl);
    }
  }

  lemma CreateBook(g: Geometry, s: State, a: Address, source: NetAddr, penalty: int)
    requires Ready(g, s) && a.svc.net !in s.addrs
    ensures var b := BookOf(s);
      BookOf(CreateCounted(s, a, source, penalty)) ==
          b.(records := b.records[a.svc.net := Announced(a, source, penalty)])
  {
    hide Weak, NetTable, RecordsOf, AddrsOk, Covered, CreateCounted, Announced;
    WeakCovered(g, s, {}, 0);
    FreshId(g, s);
    var i := CreatedInfo(s, a, source, penalty);
    CreateTable(s.info, s.newTable, s.idCount, i);
    CreateTable(s.info, s.triedTable, s.idCount, i);
    CreateRecords(s.info, s.addrs, s.idCount, i);
  }

  /** What CreateCounted does to the maps behind the book. */
  lemma CreatedInfo(s: State, a: Address, source: NetAddr, penalty: int) returns (i: Info)
    ensures i.rec == Announced(a, source, penalty) && i.rec.svc.net == a.svc.net
    ensures var t := CreateCounted(s, a, source, penalty);
      && t.info == s.info[s.idCount := i] && t.addrs == s.addrs[a.svc.net := s.idCount]
      && t.newTable == s.newTable && t.triedTable == s.triedTable
  {
    i := CreateCounted(s, a, source, penalty).info[s.idCount];
  }

  lemma CreateTable(info: Infos, table: map<Slot, int>, id: int, i: Info)
    requires id !in info && Covered(info, table)
    ensures NetTable(info[id := i], table) == NetTable(info, table)
  {}

  lemma CreateRecords(info: Infos, addrs: map<NetAddr, int>, id: int, i: Info)
    requires id !in info && AddrsOk(info, addrs) && i.rec.svc.net !in addrs
    ensures RecordsOf(info[id := i], addrs[i.rec.svc.net := id]) == RecordsOf(info, addrs)[i.rec.svc.net := i.rec]
  {}

  lemma KnownBook(g: Geometry, s: State, net: NetAddr)
    requires Consistent(g, s)
    ensures net in s.addrs <==> net in BookOf(s).records
    ensures net in s.addrs ==> s.addrs[net] in s.info && s.info[s.addrs[net]].rec.svc.net == net
  {}

  /** Add_ on the book: new statistics, and possibly one slot offered. */
  lemma AddRefines(g: Geometry, s: State, routable: bool, a: Address, source: NetAddr, penalty: int, now: int,
      later: int, draw: nat)
    requires Ready(g, s)
    ensures var r, rb := Add(g, s, routable, a, source, penalty, now, later, draw),
        AddBook(g, BookOf(s), routable, a, source, penalty, now, later, draw);
      BookOf(r.0) == rb.0 && r.1 == rb.1
  {
    hide Weak, NetTable, RecordsOf, AddrsOk, Offer, CanEnter, Evolves, CollisionsOk, Refreshed, ToU32, Max, Pow;
    var net := a.svc.net;
    var penalty' := if net == source then 0 else penalty;
    KnownBook(g, s, net);
    if routable && net in s.addrs {
      AddKnownBook(g, s, s.addrs[net], a, source, penalty', now, later, draw);
    } else if routable {
      CreateCountedKeeps(g, s, a, source, penalty');
      CreateBook(g, s, a, source, penalty');
      EnterBook(g, CreateCounted(s, a, source, penalty'), s.idCount, g.NewSlot(a.svc, source), later);
    }
  }

  lemma AddKnownBook(g: Geometry, s: State, id: int, a: Address, source: NetAddr, penalty: int, now: int,
      later: int, draw: nat)
    requires Ready(g, s) && id in s.info && s.info[id].rec.svc.net == a.svc.net
    ensures var b, net := BookOf(s), a.svc.net;
      && net in b.records
      && var r := Refreshed(b.records[net], a, penalty, now);
      var b1 := b.(records := b.records[net := r]);
      var refs := |SlotsOf(b.newTable, net)|;
      BookOf(AddKnown(g, s, id, a, source, penalty, now, later, draw)) ==
        if a.time == 0 || (r.time != 0 && a.time <= r.time) || net in b.triedTable.Values
           || refs == NEW_BUCKETS_PER_ADDRESS || draw % Pow(2, refs) != 0
        then b1
        else Offer(b1, net, g.NewSlot(r.svc, source), later)
  {
    WeakCovered(g, s, {}, 0);
    RecordAt(s.info, s.addrs, id);
    EveryRecordHeld(g, s, id);
    RefCountBook(g, s, {}, id);
    AddKnownKeeps(g, s, id, a, source, penalty, now);
    hide Weak, NetTable, RecordsOf, AddrsOk, Offer, CanEnter, Evolves, CollisionsOk, Covered, Refreshed, Pow, SlotsOf;
    var r := Refreshed(s.info[id].rec, a, penalty, now);
    RefreshedService(s.info[id].rec, a, penalty, now);
    SetRecordBook(g, s, id, r);
    var t := SetRecord(s, id, r);
    if !t.info[id].inTried && t.info[id].refCount < NEW_BUCKETS_PER_ADDRESS {
      EnterBook(g, t, id, g.NewSlot(r.svc, source), later);
    }
  }

  lemma RefreshedService(r: Record, a: Address, penalty: int, now: int)
    ensures Refreshed(r, a, penalty, now).svc == r.svc
  {}

  /** The operations that only touch the statistics of one known service. */
  lemma StatisticsRefine(g: Geometry, s: State, svc: Service, countFailure: bool, time: int, services: set<nat>)
    requires Ready(g, s) && 0 <= time
    ensures var b := BookOf(s); var a := svc.net;
      var known := a in b.records && b.records[a].svc == svc;
      && BookOf(Attempt(g, s, svc, countFailure, time)) ==
           (if known then b.(records := b.records[a := Attempted(b.records[a], countFailure, time, s.lastGood)]) else b)
      && BookOf(Connected(g, s, svc, time)) ==
           (if known then b.(records := b.records[a := ConnectedRecord(b.records[a], time)]) else b)
      && BookOf(SetServices(g, s, svc, services)) ==
           (if known then b.(records := b.records[a := b.records[a].(services := services)]) else b)
  {
    hide Weak, NetTable, RecordsOf, CollisionsOk;
    FindBook(g, s, svc);
    if FindExact(s, svc).Some? {
      var id := FindExact(s, svc).value;
      var r := s.info[id].rec;
      SetRecordBook(g, s, id, Attempted(r, countFailure, time, s.lastGood));
      SetRecordBook(g, s, id, ConnectedRecord(r, time));
      SetRecordBook(g, s, id, r.(services := services));
    }
  }

  /** The verdict on a waiting record, read off the book; a free slot means it may move. */
  function BookVerdict(g: Geometry, b: Book, r: Record, c: Clock): Option<bool> {
    var sl := g.TriedSlot(r.svc);
    if sl !in b.triedTable then Some(true)
    else if b.triedTable[sl] !in b.records then None
    else Verdict(r, b.records[b.triedTable[sl]], c)
  }

  /**
   One step of ResolveCollisions_: the waiting entry moves exactly when its slot
   is free or the verdict on the incumbent says so, and otherwise nothing changes.
   */
  lemma ResolveOneRefines(g: Geometry, s: State, id: int, valid: NetAddr -> bool, c: Clock)
    requires Ready(g, s) && 0 < c.now && 0 < c.good && id in s.info
    ensures var b, t, r := BookOf(s), ResolveOne(g, s, id, valid, c), s.info[id].rec;
      var time := if g.TriedSlot(r.svc) in b.triedTable then c.good else c.now;
      && BookOf(t) == (if valid(r.svc.net) && BookVerdict(g, b, r, c) == Some(true)
                       then GoodBook(g, b, r.svc, false, time) else b)
      && (id in t.collisions <==> id in s.collisions && valid(r.svc.net) && BookVerdict(g, b, r, c) == None)
  {
    hide Weak, CollisionsOk, NetTable, RecordsOf, GoodBook, Good, Verdict;
    var r := s.info[id].rec;
    SlotIncumbent(g, s, g.TriedSlot(r.svc));
    var time := if g.TriedSlot(r.svc) in s.triedTable then c.good else c.now;
    GoodRefines(g, s, r.svc, false, time);
    GoodCollisions(g, s, r.svc, time);
  }

  lemma GoodCollisions(g: Geometry, s: State, svc: Service, time: int)
    requires Ready(g, s) && 0 < time
    ensures Good(g, s, svc, false, time).collisions == s.collisions
  {
    hide Weak, CollisionsOk;
  }

  lemma SlotIncumbent(g: Geometry, s: State, sl: Slot)
    requires Ready(g, s)
    ensures var b := BookOf(s);
      && (sl in b.triedTable <==> sl in s.triedTable)
      && (sl in s.triedTable ==>
            && s.triedTable[sl] in s.info && b.triedTable[sl] in b.records
            && b.records[b.triedTable[sl]] == s.info[s.triedTable[sl]].rec)
  {
    WeakCovered(g, s, {}, 0);
    NetTableAt(s.info, s.triedTable, sl);
    if sl in s.triedTable {
      RecordAt(s.info, s.addrs, s.triedTable[sl]);
    }
  }

  /** GetAddr_ reorders vRandom and lists the acceptable entries among the first k of the new order. */
  lemma {:induction false} GetAddrLists(g: Geometry, s: State, n: nat, out: seq<Address>, wanted: nat,
      clock: nat -> int, draw: nat -> nat)
    returns (k: nat)
    requires Ready(g, s) && n <= |s.random|
    ensures n <= k <= |s.random|
    ensures var r := GetAddrFrom(g, s, n, out, wanted, clock, draw);
      && r.0 == s.(info := r.0.info, random := r.0.random) && AllAlike(r.0.info, s.info)
      && |r.0.random| == |s.random| && r.0.random[..n] == s.random[..n] && multiset(r.0.random) == multiset(s.random)
      && r.1 == out + Listed(s.info, r.0.random[n..k], n, clock)
      && (k == |s.random| || wanted <= |r.1|)
      && (k == n || |r.1| <= wanted)
    decreases |s.random| - n
  {
    hide Weak, CollisionsOk, IsTerrible, DrawFrom, AllAlike, SwapInfos, SwapOrder, Evolves, Listed;
    var r := GetAddrFrom(g, s, n, out, wanted, clock, draw);
    if n == |s.random| || |out| >= wanted {
      k := n;
      AllAlikeSelf(s.info);
      ListedNone(s.info, n, clock);
      assert r.0.random[n..k] == [];
    } else {
      var j := DrawFrom(draw(n), n, |s.random|);
      SwapRandomReady(g, s, n, j);
      var t := SwapRandom(s, n, j);
      var rec := s.info[s.random[j]].rec;
      var out' := if IsTerrible(rec, clock(n)) then out else out + [AddressOf(rec)];
      k := GetAddrLists(g, t, n + 1, out', wanted, clock, draw);
      SwapMultiset(s.random, n, j);
      SwapPrefix(s.random, n, j, r.0.random, k);
      AllAlikeTrans(r.0.info, t.info, s.info);
      ListedAlike(t.info, s.info, r.0.random[n + 1..k], n + 1, clock);
      ListedFirst(s.info, out, r.0.random[n..k], n, clock);
      if k == n + 1 {
        ListedNone(s.info, n + 1, clock);
        assert r.0.random[n + 1..k] == [];
      }
    }
  }

  lemma ListedNone(info: Infos, n: nat, clock: nat -> int)
    ensures Listed(info, [], n, clock) == []
  {}

  lemma ListedFirst(info: Infos, out: seq<Address>, ids: seq<int>, n: nat, clock: nat -> int)
    requires ids != [] && ids[0] in info
    ensures var rec := info[ids[0]].rec;
      out + Listed(info, ids, n, clock) == (if IsTerrible(rec, clock(n)) then out else out + [AddressOf(rec)]) +
          Listed(info, ids[1..], n + 1, clock)
  {}

  lemma AllAlikeSelf(m: Infos)
    ensures AllAlike(m, m)
  {}

  lemma AllAlikeTrans(m: Infos, n: Infos, o: Infos)
    requires AllAlike(m, n) && AllAlike(n, o)
    ensures AllAlike(m, o)
  {
    forall id | id in m ensures Alike(m[id], o[id]) {
      assert Alike(m[id], n[id]) && Alike(n[id], o[id]);
    }
  }

  lemma SwapPrefix(random: seq<int>, n: nat, j: nat, shuffled: seq<int>, k: nat)
    requires n <= j < |random| == |shuffled| && n < k <= |random|
    requires shuffled[..n + 1] == SwapOrder(random, n, j)[..n + 1]
    ensures shuffled[..n] == random[..n] && shuffled[n] == random[j] && shuffled[n..k][1..] == shuffled[n + 1..k]
  {
    assert shuffled[n] == shuffled[..n + 1][n];
    assert shuffled[..n] == shuffled[..n + 1][..n];
  }

  lemma SwapMultiset(random: seq<int>, i: nat, j: nat)
    requires i < |random| && j < |random|
    ensures multiset(SwapOrder(random, i, j)) == multiset(random)
  {}

  lemma {:induction false} ListedAlike(m: Infos, n: Infos, ids: seq<int>, i: nat, clock: nat -> int)
    requires AllAlike(m, n)
    ensures Listed(m, ids, i, clock) == Listed(n, ids, i, clock)
  {
    if ids != [] {
      ListedAlike(m, n, ids[1..], i + 1, clock);
      var id := ids[0];
      if id in m { assert Alike(m[id], n[id]); }
    }
  }

  lemma AlikeRecords(m: Infos, n: Infos, addrs: map<NetAddr, int>)
    requires AllAlike(m, n)
    ensures RecordsOf(m, addrs) == RecordsOf(n, addrs)
  {
    var ma, na := RecordsOf(m, addrs), RecordsOf(n, addrs);
    forall a | a in addrs && addrs[a] in m ensures a in na && ma[a] == na[a] {
      var id := addrs[a];
      assert Alike(m[id], n[id]);
    }
    assert ma.Keys == na.Keys;
  }

  lemma AlikeTable(m: Infos, n: Infos, table: map<Slot, int>)
    requires AllAlike(m, n)
    ensures NetTable(m, table) == NetTable(n, table)
  {
    var mt, nt := NetTable(m, table), NetTable(n, table);
    forall sl | sl in table && table[sl] in m ensures sl in nt && mt[sl] == nt[sl] {
      var id := table[sl];
      assert Alike(m[id], n[id]);
    }
    assert mt.Keys == nt.Keys;
  }

  lemma AlikeBook(g: Geometry, s: State, t: State)
    requires Ready(g, s) && AllAlike(t.info, s.info) && t == s.(info := t.info, random := t.random)
    ensures BookOf(t) == BookOf(s)
  {
    hide Weak, NetTable, RecordsOf, AllAlike;
    AlikeTable(t.info, s.info, s.newTable);
    AlikeTable(t.info, s.info, s.triedTable);
    AlikeRecords(t.info, s.info, s.addrs);
  }

  /** `out` lists the acceptable entries of a prefix of vRandom: all of it, or just enough. */
  ghost predicate HandsOut(info: Infos, random: seq<int>, out: seq<Address>, wanted: nat, clock: nat -> int) {
    exists k | 0 <= k <= |random| ::
      out == Listed(info, random[..k], 0, clock) && (k == |random| || wanted <= |out|) && |out| <= wanted
  }

  lemma GetAddrSpec(g: Geometry, s: State, wanted: nat, clock: nat -> int, draw: nat -> nat)
    requires Ready(g, s)
    ensures var r := GetAddrFrom(g, s, 0, [], wanted, clock, draw);
      && HandsOut(r.0.info, r.0.random, r.1, wanted, clock)
      && BookOf(r.0) == BookOf(s) && multiset(r.0.random) == multiset(s.random)
  {
    hide Weak, CollisionsOk, Evolves, BookOf, GetAddrFrom;
    var k := GetAddrLists(g, s, 0, [], wanted, clock, draw);
    var r := GetAddrFrom(g, s, 0, [], wanted, clock, draw);
    AlikeBook(g, s, r.0);
    ListedAlike(r.0.info, s.info, r.0.random[..k], 0, clock);
    assert r.0.random[0..k] == r.0.random[..k];
    assert r.1 == Listed(r.0.info, r.0.random[..k], 0, clock);
  }

  /**
   How much GetAddr_ hands out: no more than either limit allows, and all that is
   acceptable unless one more would break a limit.
   */
  lemma GetAddrLimits(g: Geometry, s: State, maxAddresses: nat, maxPct: nat, clock: nat -> int, draw: nat -> nat)
    requires Ready(g, s)
    ensures var r := GetAddr(g, s, maxAddresses, maxPct, clock, draw); var n, total := |r.1|, |s.random|;
      && n <= total && |r.0.random| == total
      && (maxAddresses != 0 ==> n <= maxAddresses) && (maxPct != 0 ==> 100 * n <= maxPct * total)
      && (|| n == |Listed(r.0.info, r.0.random, 0, clock)|
          || n == maxAddresses != 0 || (maxPct != 0 && maxPct * total < 100 * (n + 1)) || n == total)
  {
    hide Weak, CollisionsOk, Evolves, BookOf, GetAddrFrom, Listed;
    var wanted := Wanted(|s.random|, maxAddresses, maxPct);
    GetAddrSpec(g, s, wanted, clock, draw);
    var r := GetAddrFrom(g, s, 0, [], wanted, clock, draw);
    assert |multiset(r.0.random)| == |r.0.random| && |multiset(s.random)| == |s.random|;
    var k :| 0 <= k <= |r.0.random| && r.1 == Listed(r.0.info, r.0.random[..k], 0, clock)
        && (k == |r.0.random| || wanted <= |r.1|) && |r.1| <= wanted;
    assert r.0.random[..|r.0.random|] == r.0.random;
    ListedLength(r.0.info, r.0.random[..k], 0, clock);
    WantedExactly(|s.random|, maxAddresses, maxPct);
  }

  lemma {:induction false} ListedLength(info: Infos, ids: seq<int>, n: nat, clock: nat -> int)
    ensures |Listed(info, ids, n, clock)| <= |ids|
  {
    if ids != [] { ListedLength(info, ids[1..], n + 1, clock); }
  }

  /** The smaller of both limits, rounded down; 0 stands for no limit. */
  lemma WantedExactly(total: nat, maxAddresses: nat, maxPct: nat)
    ensures var n := Wanted(total, maxAddresses, maxPct);
      && (maxAddresses != 0 ==> n <= maxAddresses) && (maxPct != 0 ==> 100 * n <= maxPct * total)
      && (maxPct == 0 ==> n <= total)
      && (n == maxAddresses != 0 || (maxPct != 0 && maxPct * total < 100 * (n + 1)) || (maxPct == 0 && n == total))
  {
    DivModLaw(maxPct * total, 100);
  }
}
