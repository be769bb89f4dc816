/**
 The debug self-check of the address manager (Check_ in src/addrman.cpp): what
 a result of 0 means, and how that compares with the consistency conditions.
 */
module AddrCheck {
  import opened AddrTypes
  import opened AddrState
  import opened Basics

  /** Reading an address through operator[], which inserts 0 for a missing key. */
  function Lookup(addrs: map<NetAddr, int>, a: NetAddr): int { if a in addrs then addrs[a] else 0 }

  function Touch(addrs: map<NetAddr, int>, a: NetAddr): map<NetAddr, int> { addrs[a := Lookup(addrs, a)] }

  predicate KindPasses(i: Info) {
    if i.inTried then i.rec.lastSuccess != 0 && i.refCount == 0
    else 1 <= i.refCount <= NEW_BUCKETS_PER_ADDRESS
  }

  predicate EntryPasses(i: Info, addrs: map<NetAddr, int>, random: seq<int>, id: int) {
    && KindPasses(i) && Lookup(addrs, i.rec.svc.net) == id
    && 0 <= i.randomPos < |random| && random[i.randomPos] == id
    && 0 <= i.rec.lastTry && 0 <= i.rec.lastSuccess
  }

  ghost predicate EntriesPass(info: Infos, addrs: map<NetAddr, int>, random: seq<int>) {
    forall id | id in info :: EntryPasses(info[id], addrs, random, id)
  }

  predicate TriedSlotPasses(g: Geometry, info: Infos, id: int, sl: Slot) {
    id in info && info[id].inTried && g.TriedSlot(info[id].rec.svc) == sl
  }

  ghost predicate TriedSlotsPass(g: Geometry, info: Infos, t: map<Slot, int>) {
    forall sl | sl in t :: TriedSlotPasses(g, info, t[sl], sl)
  }

  predicate NewSlotPasses(g: Geometry, info: Infos, id: int, sl: Slot) {
    id in info && !info[id].inTried && g.position(info[id].rec.svc, true, sl.bucket) == sl.pos
  }

  ghost predicate NewSlotsPass(g: Geometry, info: Infos, t: map<Slot, int>) {
    forall sl | sl in t :: NewSlotPasses(g, info, t[sl], sl)
  }

  ghost predicate RefsCounted(info: Infos, t: map<Slot, int>) {
    forall id | id in NewIds(info) :: info[id].refCount == |RefSlots(t, id)|
  }

  /** Check_ returns 0. */
  ghost predicate Passes(g: Geometry, s: State) {
    && |s.random| == s.nTried + s.nNew && EntriesPass(s.info, s.addrs, s.random)
    && |TriedIds(s.info)| == s.nTried && |NewIds(s.info)| == s.nNew
    && TriedSlotsPass(g, s.info, s.triedTable) && TriedIds(s.info) <= s.triedTable.Values
    && NewSlotsPass(g, s.info, s.newTable) && RefsCounted(s.info, s.newTable)
    && s.key != 0
  }

  /** What Check_ does not look at: ids already given out, and keys of mapAddr that no entry has. */
  ghost predicate Unchecked(g: Geometry, s: State) {
    && IdsOk(s.info, s.idCount)
    && Indexed(s.info, s.addrs)
    && (forall a | a in s.addrs :: exists id :: id in s.info && s.info[id].rec.svc.net == a)
    && (forall sl | sl in s.newTable :: sl.bucket < g.newBuckets)
  }

  /** Every entry's address is a key of mapAddr. */
  ghost predicate Indexed(info: Infos, addrs: map<NetAddr, int>) {
    forall id | id in info :: info[id].rec.svc.net in addrs
  }

  ghost predicate SameLookups(before: map<NetAddr, int>, after: map<NetAddr, int>) {
    forall a: NetAddr :: Lookup(before, a) == Lookup(after, a)
  }

  lemma LookupsPass(i: Info, before: map<NetAddr, int>, after: map<NetAddr, int>, random: seq<int>, id: int)
    requires SameLookups(before, after)
    ensures EntryPasses(i, before, random, id) == EntryPasses(i, after, random, id)
    ensures SameLookups(before, Touch(after, i.rec.svc.net))
    ensures i.rec.svc.net in after ==> Touch(after, i.rec.svc.net) == after
  {}

  /** mapNew when the entries of `todo` are still to come. */
  function NewCounts(info: Infos, todo: set<int>): map<int, int> {
    map id | id in NewIds(info) && id !in todo :: info[id].refCount
  }

  /** setTried when the entries of `todo` are still to come. */
  function TriedBut(info: Infos, todo: set<int>): set<int> { TriedIds(info) - todo }

  lemma TodoStart(info: Infos, addrs: map<NetAddr, int>)
    ensures NewCounts(info, info.Keys) == map[] && TriedBut(info, info.Keys) == {} && SameLookups(addrs, addrs)
  {
    assert forall id :: id !in NewCounts(info, info.Keys);
  }

  lemma TodoStep(info: Infos, todo: set<int>, n: int)
    requires n in todo && n in info
    ensures TriedBut(info, todo - {n}) == if info[n].inTried then TriedBut(info, todo) + {n} else TriedBut(info, todo)
    ensures NewCounts(info, todo - {n}) == if info[n].inTried then NewCounts(info, todo)
        else NewCounts(info, todo)[n := info[n].refCount]
  {}

  lemma NothingSeen(info: Infos, addrs: map<NetAddr, int>, random: seq<int>)
    requires EntriesPass(info, addrs, random)
    ensures NewCounts(info, {}) == NewLeft(info, map[]) && TriedBut(info, {}) == TriedIds(info)
  {
    forall id | id in NewIds(info) ensures info[id].refCount != 0 && RefSlots(map[], id) == {} {
      assert EntryPasses(info[id], addrs, random, id);
    }
  }

  // ------------------------------------------------------------ vRandom: a pigeonhole

  function Positions(info: Infos, ids: set<int>): set<int>
    requires ids <= info.Keys
  {
    set id | id in ids :: info[id].randomPos
  }

  lemma {:induction false} PositionsCount(info: Infos, random: seq<int>, ids: set<int>)
    requires ids <= info.Keys
    requires forall id | id in ids :: 0 <= info[id].randomPos < |random| && random[info[id].randomPos] == id
    ensures |Positions(info, ids)| == |ids|
  {
    if |ids| != 0 {
      var id := AnyOf(ids);
      var rest := ids - {id};
      PositionsCount(info, random, rest);
      assert Positions(info, ids) == Positions(info, rest) + {info[id].randomPos};
      assert info[id].randomPos !in Positions(info, rest);
    }
  }

  function Below(n: nat): (r: set<int>)
    ensures |r| == n && forall i :: i in r <==> 0 <= i < n
  {
    if n == 0 then {} else Below(n - 1) + {n - 1}
  }

  lemma FullSubset(a: set<int>, b: set<int>)
    requires a <= b && |a| == |b|
    ensures a == b
  {
    forall x | x in b ensures x in a {
      if x !in a { SubsetCount(a, b - {x}); }
    }
  }

  lemma SplitIds(info: Infos)
    ensures |info.Keys| == |TriedIds(info)| + |NewIds(info)|
  {
    assert info.Keys == TriedIds(info) + NewIds(info);
    assert TriedIds(info) !! NewIds(info);
  }

  /** As many entries as places, each entry pointing at a place that points back: every place is taken. */
  lemma RandomFilled(info: Infos, random: seq<int>)
    requires |random| == |TriedIds(info)| + |NewIds(info)|
    requires forall id | id in info :: 0 <= info[id].randomPos < |random| && random[info[id].randomPos] == id
    ensures RandomOk(info, random)
  {
    SplitIds(info);
    PositionsCount(info, random, info.Keys);
    FullSubset(Positions(info, info.Keys), Below(|random|));
    forall i | 0 <= i < |random|
      ensures random[i] in info && info[random[i]].randomPos == i
    {
      assert i in Positions(info, info.Keys);
      var id :| id in info && info[id].randomPos == i;
    }
  }

  // ------------------------------------------------------------ Check_ against the invariant

  lemma TriedMatches(g: Geometry, info: Infos, t: map<Slot, int>)
    requires TriedSlotsPass(g, info, t) && TriedIds(info) <= t.Values
    ensures TriedOk(g, info, t)
  {
    forall id | id in info && info[id].inTried
      ensures g.TriedSlot(info[id].rec.svc) in t && t[g.TriedSlot(info[id].rec.svc)] == id
    {
      assert id in TriedIds(info);
      var sl :| sl in t && t[sl] == id;
      assert TriedSlotPasses(g, info, t[sl], sl);
    }
    forall sl | sl in t
      ensures t[sl] in info && info[t[sl]].inTried && g.TriedSlot(info[t[sl]].rec.svc) == sl
    {
      assert TriedSlotPasses(g, info, t[sl], sl);
    }
  }

  lemma NewMatches(g: Geometry, info: Infos, t: map<Slot, int>)
    requires NewSlotsPass(g, info, t) && forall sl | sl in t :: sl.bucket < g.newBuckets
    ensures NewSlotsOk(g, info, t)
  {
    forall sl | sl in t
      ensures t[sl] in info && !info[t[sl]].inTried && sl.pos == g.position(info[t[sl]].rec.svc, true, sl.bucket)
    {
      assert NewSlotPasses(g, info, t[sl], sl);
    }
  }

  lemma RefsMatch(info: Infos, addrs: map<NetAddr, int>, random: seq<int>, g: Geometry, t: map<Slot, int>)
    requires EntriesPass(info, addrs, random) && NewSlotsPass(g, info, t) && RefsCounted(info, t)
    ensures RefsOk(info, t, {})
  {
    forall id | id in info
      ensures info[id].refCount == |RefSlots(t, id)| && (!info[id].inTried ==> 1 <= info[id].refCount)
      ensures info[id].refCount <= NEW_BUCKETS_PER_ADDRESS
    {
      assert EntryPasses(info[id], addrs, random, id);
      if info[id].inTried {
        forall sl | sl in t ensures t[sl] != id { assert NewSlotPasses(g, info, t[sl], sl); }
        assert RefSlots(t, id) == {};
      } else {
        assert id in NewIds(info);
      }
    }
  }

  lemma AddrsMatch(info: Infos, addrs: map<NetAddr, int>, random: seq<int>)
    requires EntriesPass(info, addrs, random)
    requires forall id | id in info :: info[id].rec.svc.net in addrs
    requires forall a | a in addrs :: exists id :: id in info && info[id].rec.svc.net == a
    ensures AddrsOk(info, addrs)
  {
    forall id | id in info
      ensures info[id].rec.svc.net in addrs && addrs[info[id].rec.svc.net] == id
    {
      assert EntryPasses(info[id], addrs, random, id);
    }
    forall a | a in addrs
      ensures addrs[a] in info && info[addrs[a]].rec.svc.net == a
    {
      var id :| id in info && info[id].rec.svc.net == a;
      assert EntryPasses(info[id], addrs, random, id);
    }
  }

  lemma PassImplies(g: Geometry, s: State)
    requires Passes(g, s) && Unchecked(g, s)
    ensures Consistent(g, s)
  {
    hide TriedOk, NewSlotsOk, RefsOk, RandomOk, AddrsOk, TriedSlotsPass, NewSlotsPass, RefsCounted;
    TriedMatches(g, s.info, s.triedTable);
    NewMatches(g, s.info, s.newTable);
    RefsMatch(s.info, s.addrs, s.random, g, s.newTable);
    AddrsMatch(s.info, s.addrs, s.random);
    forall id | id in s.info
      ensures 0 <= s.info[id].randomPos < |s.random| && s.random[s.info[id].randomPos] == id
    {
      assert EntryPasses(s.info[id], s.addrs, s.random, id);
    }
    RandomFilled(s.info, s.random);
    forall id | id in s.info
      ensures 0 <= s.info[id].rec.lastTry && 0 <= s.info[id].rec.lastSuccess
      ensures (s.info[id].inTried ==> s.info[id].rec.lastSuccess != 0)
    {
      assert EntryPasses(s.info[id], s.addrs, s.random, id);
    }
  }

  lemma TriedNotReferenced(g: Geometry, info: Infos, t: map<Slot, int>, id: int)
    requires NewSlotsOk(g, info, t) && id in info && info[id].inTried
    ensures RefSlots(t, id) == {}
  {}

  lemma EntryMatches(g: Geometry, s: State, id: int)
    requires Consistent(g, s) && id in s.info
    ensures EntryPasses(s.info[id], s.addrs, s.random, id)
  {
    hide TriedOk;
    if s.info[id].inTried { TriedNotReferenced(g, s.info, s.newTable, id); }
  }

  lemma TablesPass(g: Geometry, s: State)
    requires Consistent(g, s)
    ensures TriedSlotsPass(g, s.info, s.triedTable) && TriedIds(s.info) <= s.triedTable.Values
    ensures NewSlotsPass(g, s.info, s.newTable) && RefsCounted(s.info, s.newTable)
  {
    hide AddrsOk, RandomOk;
    var t := s.triedTable;
    forall sl | sl in t ensures TriedSlotPasses(g, s.info, t[sl], sl) { var id := t[sl]; }
    forall id | id in TriedIds(s.info) ensures id in t.Values {
      var sl := g.TriedSlot(s.info[id].rec.svc);
      assert sl in t && t[sl] == id;
    }
    forall sl | sl in s.newTable ensures NewSlotPasses(g, s.info, s.newTable[sl], sl) { var id := s.newTable[sl]; }
  }

  /** Conversely, the random order of a consistent manager is as long as both kinds together. */
  lemma RandomLength(info: Infos, random: seq<int>)
    requires RandomOk(info, random)
    ensures |random| == |TriedIds(info)| + |NewIds(info)|
  {
    SplitIds(info);
    PositionsCount(info, random, info.Keys);
    forall i | i in Below(|random|) ensures i in Positions(info, info.Keys) {
      var id := random[i];
      assert id in info && info[id].randomPos == i;
    }
    assert Positions(info, info.Keys) == Below(|random|);
  }

  lemma ConsistentPasses(g: Geometry, s: State)
    requires Consistent(g, s)
    ensures Passes(g, s) && Unchecked(g, s)
  {
    hide TriedOk, TriedSlotsPass, NewSlotsPass, RefsCounted, RandomOk;
    TablesPass(g, s);
    RandomLength(s.info, s.random);
    forall id | id in s.info ensures EntryPasses(s.info[id], s.addrs, s.random, id) { EntryMatches(g, s, id); }
    forall a | a in s.addrs ensures exists id :: id in s.info && s.info[id].rec.svc.net == a {
      var id := s.addrs[a];
      assert id in s.info && s.info[id].rec.svc.net == a;
    }
  }

  /**
   The conditions kept by every operation are exactly a result of 0 from Check_
   together with what Check_ leaves out. Check_ itself never looks at vRandom
   from the side of the vector; that half follows by counting.
   */
  lemma CheckExact(g: Geometry, s: State)
    ensures Consistent(g, s) <==> Passes(g, s) && Unchecked(g, s)
  {
    hide Passes, Unchecked, Weak;
    if Consistent(g, s) { ConsistentPasses(g, s); }
    if Passes(g, s) && Unchecked(g, s) { PassImplies(g, s); }
  }

  // ------------------------------------------------------------ the table scans

  /** The occupied slots that come before position `i` of bucket `n`. */
  function Before(t: map<Slot, int>, n: nat, i: nat): map<Slot, int> {
    map sl | sl in t && (sl.bucket < n || (sl.bucket == n && sl.pos < i)) :: t[sl]
  }

  lemma BeforeNext(t: map<Slot, int>, n: nat, i: nat)
    ensures var sl := Slot(n, i);
            Before(t, n, i + 1) == if sl in t then Before(t, n, i)[sl := t[sl]] else Before(t, n, i)
    ensures Slot(n, i) !in Before(t, n, i)
  {}

  lemma BeforeRow(t: map<Slot, int>, n: nat, size: nat)
    requires forall sl | sl in t :: sl.pos < size
    ensures Before(t, n, size) == Before(t, n + 1, 0)
  {}

  lemma BeforeAll(t: map<Slot, int>, buckets: nat)
    requires forall sl | sl in t :: sl.bucket < buckets
    ensures Before(t, buckets, 0) == t && Before(t, 0, 0) == map[]
  {}

  /** What is left in setTried after the slots of `seen`. */
  function TriedLeft(info: Infos, seen: map<Slot, int>): set<int> { TriedIds(info) - seen.Values }

  /** What is left in mapNew after the slots of `seen`. */
  function NewLeft(info: Infos, seen: map<Slot, int>): map<int, int> {
    map id | id in NewIds(info) && info[id].refCount != |RefSlots(seen, id)| :: info[id].refCount - |RefSlots(seen, id)|
  }

  lemma SlotOnce(g: Geometry, info: Infos, seen: map<Slot, int>, sl: Slot, id: int)
    requires TriedSlotsPass(g, info, seen) && sl !in seen && TriedSlotPasses(g, info, id, sl)
    ensures id !in seen.Values
  {
    forall o | o in seen ensures seen[o] != id { assert TriedSlotPasses(g, info, seen[o], o); }
  }

  lemma TriedStep(g: Geometry, info: Infos, seen: map<Slot, int>, sl: Slot, id: int)
    requires TriedSlotsPass(g, info, seen) && sl !in seen
    ensures TriedSlotPasses(g, info, id, sl) ==> id in TriedLeft(info, seen)
    ensures TriedLeft(info, seen[sl := id]) == TriedLeft(info, seen) - {id}
    ensures TriedSlotsPass(g, info, seen[sl := id]) <==> TriedSlotPasses(g, info, id, sl)
  {
    var next := seen[sl := id];
    assert next[sl] == id;
    if TriedSlotPasses(g, info, id, sl) { SlotOnce(g, info, seen, sl, id); }
    forall k ensures k in next.Values <==> k in seen.Values || k == id {
      if k in seen.Values { var o :| o in seen && seen[o] == k; assert o in next && next[o] == k; }
    }
    if TriedSlotsPass(g, info, next) { assert TriedSlotPasses(g, info, next[sl], sl); }
    if TriedSlotPasses(g, info, id, sl) {
      forall o | o in next ensures TriedSlotPasses(g, info, next[o], o) {
        if o != sl { assert o in seen && TriedSlotPasses(g, info, seen[o], o); }
      }
    }
  }

  lemma RefsNext(seen: map<Slot, int>, sl: Slot, id: int, k: int)
    requires sl !in seen
    ensures |RefSlots(seen[sl := id], k)| == |RefSlots(seen, k)| + if k == id then 1 else 0
  {
    var next := seen[sl := id];
    if k == id {
      assert RefSlots(next, k) == RefSlots(seen, k) + {sl};
    } else {
      assert RefSlots(next, k) == RefSlots(seen, k);
    }
  }

  /** Counting one more slot of a listed id is the decrement of Check_, with the entry dropped at 0. */
  lemma NewStep(info: Infos, seen: map<Slot, int>, sl: Slot, id: int)
    requires sl !in seen && id in NewLeft(info, seen)
    ensures var left := NewLeft(info, seen);
            NewLeft(info, seen[sl := id]) == if left[id] == 1 then left - {id} else left[id := left[id] - 1]
  {
    hide RefSlots;
    var left, next := NewLeft(info, seen), NewLeft(info, seen[sl := id]);
    forall k ensures k in next <==> k in left && !(k == id && left[id] == 1) {
      RefsNext(seen, sl, id, k);
    }
    forall k | k in next ensures next[k] == if k == id then left[id] - 1 else left[k] {
      RefsNext(seen, sl, id, k);
    }
  }

  lemma {:induction false} RefsGrow(seen: map<Slot, int>, t: map<Slot, int>, id: int)
    requires forall sl | sl in seen :: sl in t && t[sl] == seen[sl]
    ensures RefSlots(seen, id) <= RefSlots(t, id) && |RefSlots(seen, id)| <= |RefSlots(t, id)|
  {
    SubsetCount(RefSlots(seen, id), RefSlots(t, id));
  }

  /** A slot whose id is not listed any more: some id is held more often than it is counted. */
  lemma NotListed(g: Geometry, info: Infos, t: map<Slot, int>, seen: map<Slot, int>, sl: Slot, id: int)
    requires forall o | o in seen :: o in t && t[o] == seen[o]
    requires sl in t && t[sl] == id && sl !in seen && id !in NewLeft(info, seen)
    ensures !(NewSlotsPass(g, info, t) && RefsCounted(info, t))
  {
    hide RefSlots;
    if NewSlotsPass(g, info, t) && RefsCounted(info, t) {
      assert NewSlotPasses(g, info, t[sl], sl);
      assert id in NewIds(info);
      RefsNext(seen, sl, id, id);
      RefsGrow(seen[sl := id], t, id);
      assert false;
    }
  }

  lemma BeforePart(t: map<Slot, int>, n: nat, i: nat)
    ensures forall o | o in Before(t, n, i) :: o in t && t[o] == Before(t, n, i)[o]
  {}

  lemma NewSlotStep(g: Geometry, info: Infos, seen: map<Slot, int>, sl: Slot, id: int)
    requires NewSlotsPass(g, info, seen) && NewSlotPasses(g, info, id, sl)
    ensures NewSlotsPass(g, info, seen[sl := id])
  {
    var next := seen[sl := id];
    forall o | o in next ensures NewSlotPasses(g, info, next[o], o) {
      if o != sl { assert o in seen && NewSlotPasses(g, info, seen[o], o); }
    }
  }

  /** Before the scans, mapNew lists every new id. */
  lemma CountLeft(info: Infos, addrs: map<NetAddr, int>, random: seq<int>)
    requires EntriesPass(info, addrs, random)
    ensures |NewLeft(info, map[])| == |NewIds(info)|
  {
    NothingSeen(info, addrs, random);
    assert NewLeft(info, map[]).Keys == NewIds(info);
  }

  /** After the scans, empty collections mean full tables. */
  lemma NothingLeft(info: Infos, tried: map<Slot, int>, table: map<Slot, int>)
    ensures |TriedLeft(info, tried)| == 0 <==> TriedIds(info) <= tried.Values
    ensures |NewLeft(info, table)| == 0 <==> RefsCounted(info, table)
  {
    if |TriedLeft(info, tried)| == 0 {
      forall id | id in TriedIds(info) ensures id in tried.Values { assert id !in TriedLeft(info, tried); }
    }
    if TriedIds(info) <= tried.Values { assert TriedLeft(info, tried) == {}; }
    if |NewLeft(info, table)| == 0 {
      forall id | id in NewIds(info) ensures info[id].refCount == |RefSlots(table, id)| {
        assert id !in NewLeft(info, table);
      }
    }
    if RefsCounted(info, table) { assert forall id :: id !in NewLeft(info, table); }
  }

  /** An address that is missing from mapAddr is noticed, unless it is the one of id 0: operator[] supplies a 0. */
  lemma MissingNoticed(g: Geometry, s: State, id: int)
    requires g.InRange() && Consistent(g, s) && id in s.info
    ensures Passes(g, s.(addrs := s.addrs - {s.info[id].rec.svc.net})) <==> id == 0
  {
    hide Weak, EntriesPass, TriedSlotsPass, NewSlotsPass, RefsCounted;
    CheckExact(g, s);
    AddrsApart(g, s);
    EntriesMissing(s.info, s.addrs, s.random, id);
  }

  lemma EntriesMissing(info: Infos, addrs: map<NetAddr, int>, random: seq<int>, id: int)
    requires EntriesPass(info, addrs, random) && id in info
    requires forall k | k in info && k != id :: info[k].rec.svc.net != info[id].rec.svc.net
    ensures EntriesPass(info, addrs - {info[id].rec.svc.net}, random) <==> id == 0
  {
    hide KindPasses;
    var less := addrs - {info[id].rec.svc.net};
    forall k | k in info ensures EntryPasses(info[k], less, random, k) <==> k != id || id == 0 {
      assert EntryPasses(info[k], addrs, random, k);
    }
  }

  lemma AddrsApart(g: Geometry, s: State)
    requires Consistent(g, s)
    ensures forall i, j | i in s.info && j in s.info && i != j :: s.info[i].rec.svc.net != s.info[j].rec.svc.net
  {
    hide RandomOk, TriedOk, NewSlotsOk, RefsOk, CountsOk, TimesOk;
  }
}
